/** The switch node (packages/nodes/src/examples/switchNode.tsx): read a
    value at a dot-separated path of the context, coerce it and the
    expected literal to one type, compare them, and emit the route taken,
    whether the comparison held, and the value read. */
module SwitchNode {
  import opened Wrappers
  import opened JsText
  import opened JsValues
  import opened Entries
  import opened Schemas
  import opened Parameters
  import opened Ports
  import opened Manifest
  import opened Executor

  datatype Comparison = EqualsOp | NotEqualsOp | GreaterThanOp | LessThanOp | ExistsOp | NotExistsOp

  datatype ValueType = StringType | NumberType | BooleanType

  datatype Route = MatchRoute | DefaultRoute

  const ComparisonNames: seq<string> := ["equals", "notEquals", "greaterThan", "lessThan", "exists", "notExists"]
  const ValueTypeNames: seq<string> := ["string", "number", "boolean"]
  const RouteNames: seq<string> := ["match", "default"]

  function ComparisonName(op: Comparison): string {
    match op
    case EqualsOp => "equals"
    case NotEqualsOp => "notEquals"
    case GreaterThanOp => "greaterThan"
    case LessThanOp => "lessThan"
    case ExistsOp => "exists"
    case NotExistsOp => "notExists"
  }

  function ComparisonOf(name: string): Option<Comparison> {
    if name == "equals" then Some(EqualsOp)
    else if name == "notEquals" then Some(NotEqualsOp)
    else if name == "greaterThan" then Some(GreaterThanOp)
    else if name == "lessThan" then Some(LessThanOp)
    else if name == "exists" then Some(ExistsOp)
    else if name == "notExists" then Some(NotExistsOp)
    else None
  }

  function ValueTypeName(t: ValueType): string {
    match t
    case StringType => "string"
    case NumberType => "number"
    case BooleanType => "boolean"
  }

  function ValueTypeOf(name: string): Option<ValueType> {
    if name == "string" then Some(StringType)
    else if name == "number" then Some(NumberType)
    else if name == "boolean" then Some(BooleanType)
    else None
  }

  function RouteName(route: Route): string {
    match route
    case MatchRoute => "match"
    case DefaultRoute => "default"
  }

  function RouteOf(name: string): Option<Route> {
    if name == "match" then Some(MatchRoute)
    else if name == "default" then Some(DefaultRoute)
    else None
  }

  /** The operator names are exactly the names operators render to, and
      reading a name back gives the operator it came from. */
  lemma ComparisonNamesSpec(op: Comparison, name: string)
    ensures ComparisonOf(ComparisonName(op)) == Some(op) && ComparisonName(op) in ComparisonNames
    ensures ComparisonOf(name).Some? <==> name in ComparisonNames
    ensures ComparisonOf(name).Some? ==> ComparisonName(ComparisonOf(name).value) == name
  {
  }

  /** The same for the value type names. */
  lemma ValueTypeNamesSpec(t: ValueType, name: string)
    ensures ValueTypeOf(ValueTypeName(t)) == Some(t) && ValueTypeName(t) in ValueTypeNames
    ensures ValueTypeOf(name).Some? <==> name in ValueTypeNames
    ensures ValueTypeOf(name).Some? ==> ValueTypeName(ValueTypeOf(name).value) == name
  {
  }

  /** The same for the route names. */
  lemma RouteNamesSpec(route: Route, name: string)
    ensures RouteOf(RouteName(route)) == Some(route) && RouteName(route) in RouteNames
    ensures RouteOf(name).Some? <==> name in RouteNames
    ensures RouteOf(name).Some? ==> RouteName(RouteOf(name).value) == name
  {
  }

  function PathParameter(): ParameterDefinition {
    DefineParameter(ParameterDefinition(
      "path", "Context path", StringS(1),
      Undefined, None, Some(TextControl), None))
  }

  function OperatorParameter(): ParameterDefinition {
    DefineParameter(ParameterDefinition(
      "operator", "Operator", EnumS(ComparisonNames),
      Str("equals"), None, Some(SelectControl),
      Some([ParameterOption("Equals", "equals"), ParameterOption("Not equals", "notEquals"),
            ParameterOption("Greater than", "greaterThan"), ParameterOption("Less than", "lessThan"),
            ParameterOption("Exists", "exists"), ParameterOption("Not exists", "notExists")])))
  }

  function ValueTypeParameter(): ParameterDefinition {
    DefineParameter(ParameterDefinition(
      "valueType", "Value type", EnumS(ValueTypeNames),
      Str("string"), None, Some(SelectControl),
      Some([ParameterOption("String", "string"), ParameterOption("Number", "number"),
            ParameterOption("Boolean", "boolean")])))
  }

  function ExpectedValueParameter(): ParameterDefinition {
    DefineParameter(ParameterDefinition(
      "expectedValue", "Expected value", OptionalS(StringS(0)),
      Undefined, None, Some(TextControl), None))
  }

  function MissingRouteParameter(): ParameterDefinition {
    DefineParameter(ParameterDefinition(
      "missingRoute", "Missing value route", EnumS(RouteNames),
      Str("default"), None, Some(SelectControl),
      Some([ParameterOption("Match", "match"), ParameterOption("Default", "default")])))
  }

  function SwitchParameters(): ParameterDefinitions {
    [ ("path", PathParameter()),
      ("operator", OperatorParameter()),
      ("valueType", ValueTypeParameter()),
      ("expectedValue", ExpectedValueParameter()),
      ("missingRoute", MissingRouteParameter()) ]
  }

  function SwitchPorts(): PortsDefinition {
    PortsDefinition(
      [],
      [ ("route", DefinePort(PortDefinition("route", "Selected route", EnumS(RouteNames), None, None, None))),
        ("matched", DefinePort(PortDefinition("matched", "Matched", BooleanS, None, None, None))),
        ("value", DefinePort(PortDefinition("value", "Resolved value", UnknownS, None, None, None))) ])
  }

  function SwitchManifest(): NodeManifest {
    NodeManifest("switch", "0.1.0", "Switch",
      Some("Evaluates a condition and routes execution through Match/Default outputs."),
      Some(TransformKind), Some(["control"]), Some("git-branch"))
  }

  /** `switchNode`. */
  function SwitchDefinition(): NodeDefinition {
    DefineNode(SwitchManifest(), SwitchParameters(), SwitchPorts())
  }

  /** The parameter values the handler reads, once parsed. */
  datatype SwitchParams = SwitchParams(
    path: string,
    operator: Comparison,
    valueType: ValueType,
    expectedValue: Option<string>,
    missingRoute: Route)

  /** The parsed parameter object as the handler's typed view of it;
      `None` for an object the parameter schema would not have produced. */
  function ReadParams(v: Value): Option<SwitchParams> {
    if !v.Obj? then None
    else
      var path := Get(v.fields, "path");
      var operator := Get(v.fields, "operator");
      var valueType := Get(v.fields, "valueType");
      var expected := Get(v.fields, "expectedValue");
      var missing := Get(v.fields, "missingRoute");
      if path.Str? && operator.Str? && ComparisonOf(operator.s).Some?
        && valueType.Str? && ValueTypeOf(valueType.s).Some?
        && (expected == Undefined || expected.Str?)
        && missing.Str? && RouteOf(missing.s).Some?
      then
        Some(SwitchParams(path.s, ComparisonOf(operator.s).value, ValueTypeOf(valueType.s).value,
          if expected.Str? then Some(expected.s) else None, RouteOf(missing.s).value))
      else None
  }

  /** A parameter value that is absent or one of the enum's names. */
  predicate AbsentOrIn(v: Value, names: seq<string>) {
    v == Undefined || (v.Str? && v.s in names)
  }

  /** The parameter schema of the switch node, written out. */
  function SwitchParameterSchema(): Schema {
    ObjectS(
      [ ("path", StringS(1)),
        ("operator", DefaultS(EnumS(ComparisonNames), Str("equals"))),
        ("valueType", DefaultS(EnumS(ValueTypeNames), Str("string"))),
        ("expectedValue", OptionalS(StringS(0))),
        ("missingRoute", DefaultS(EnumS(RouteNames), Str("default"))) ])
  }

  /** The names of the switch parameters, in declaration order. */
  const SwitchKeys: seq<string> := ["path", "operator", "valueType", "expectedValue", "missingRoute"]

  lemma SwitchKeysDistinct()
    ensures Distinct(SwitchKeys)
  {
    forall i, j | 0 <= i < j < |SwitchKeys| ensures SwitchKeys[i] != SwitchKeys[j] {
      assert SwitchKeys[i][0] != SwitchKeys[j][0];
    }
  }

  /** The parameter record and the written-out schema declare the same
      keys, each once. */
  lemma SwitchParameterKeys()
    ensures Keys(SwitchParameters()) == SwitchKeys && Distinct(SwitchKeys)
    ensures Keys(SwitchParameterSchema().shape) == SwitchKeys
  {
    SwitchKeysDistinct();
  }

  /** `buildParameterSchema` makes exactly that schema from the switch
      parameters: only `expectedValue` may be left out, and the three
      enums fall back to their defaults. */
  lemma SwitchShape()
    ensures ParameterObjectSchema(SwitchParameters()) == SwitchParameterSchema()
  {
    var parameters := SwitchParameters();
    SwitchParameterKeys();
    PutAllDistinct(parameters, ParameterSchema);
    var shape := PutAll(parameters, ParameterSchema);
    var expected := SwitchParameterSchema().shape;
    assert |shape| == |expected| == 5;
    assert shape[0] == expected[0];
    assert shape[1] == expected[1];
    assert shape[2] == expected[2];
    assert shape[3] == expected[3];
    assert shape[4] == expected[4];
    assert shape == expected;
  }

  /** `z.enum(names).default(d)` turns a missing value into `d`, keeps one
      of the names and rejects everything else. */
  lemma EnumDefault(names: seq<string>, d: string, v: Value)
    ensures Parse(DefaultS(EnumS(names), Str(d)), v).Success? <==> AbsentOrIn(v, names)
    ensures Parse(DefaultS(EnumS(names), Str(d)), v).Success? ==>
      Parse(DefaultS(EnumS(names), Str(d)), v).value == if v == Undefined then Str(d) else v
  {
  }

  /** `z.string().min(m)` keeps exactly the strings of length `m` or more. */
  lemma StringField(m: nat, v: Value)
    ensures Parse(StringS(m), v).Success? <==> v.Str? && |v.s| >= m
    ensures Parse(StringS(m), v).Success? ==> Parse(StringS(m), v).value == v
  {
  }

  /** `z.string().optional()` keeps `undefined` and every string. */
  lemma OptionalStringField(v: Value)
    ensures Parse(OptionalS(StringS(0)), v).Success? <==> v == Undefined || v.Str?
    ensures Parse(OptionalS(StringS(0)), v).Success? ==> Parse(OptionalS(StringS(0)), v).value == v
  {
  }

  /** The switch parameter object, field by field. */
  lemma SwitchFields(fields: map<string, Value>)
    ensures var r := Parse(SwitchParameterSchema(), Obj(fields));
      && (r.Success? <==>
            && Parse(StringS(1), Get(fields, "path")).Success?
            && Parse(DefaultS(EnumS(ComparisonNames), Str("equals")), Get(fields, "operator")).Success?
            && Parse(DefaultS(EnumS(ValueTypeNames), Str("string")), Get(fields, "valueType")).Success?
            && Parse(OptionalS(StringS(0)), Get(fields, "expectedValue")).Success?
            && Parse(DefaultS(EnumS(RouteNames), Str("default")), Get(fields, "missingRoute")).Success?)
      && (r.Success? ==>
            && r.value.Obj?
            && Get(r.value.fields, "path") == Parse(StringS(1), Get(fields, "path")).value
            && Get(r.value.fields, "operator") == Parse(DefaultS(EnumS(ComparisonNames), Str("equals")), Get(fields, "operator")).value
            && Get(r.value.fields, "valueType") == Parse(DefaultS(EnumS(ValueTypeNames), Str("string")), Get(fields, "valueType")).value
            && Get(r.value.fields, "expectedValue") == Parse(OptionalS(StringS(0)), Get(fields, "expectedValue")).value
            && Get(r.value.fields, "missingRoute") == Parse(DefaultS(EnumS(RouteNames), Str("default")), Get(fields, "missingRoute")).value)
  {
    SwitchKeysDistinct();
    FiveFieldObject(
      "path", StringS(1),
      "operator", DefaultS(EnumS(ComparisonNames), Str("equals")),
      "valueType", DefaultS(EnumS(ValueTypeNames), Str("string")),
      "expectedValue", OptionalS(StringS(0)),
      "missingRoute", DefaultS(EnumS(RouteNames), Str("default")),
      fields);
  }

  /** The parameters are accepted exactly when `path` is a non-empty
      string, `operator`, `valueType` and `missingRoute` are absent or
      one of their names, and `expectedValue` is absent or a string. */
  lemma SwitchParametersAccepted(fields: map<string, Value>)
    ensures Parse(SwitchParameterSchema(), Obj(fields)).Success? <==>
      && Get(fields, "path").Str? && |Get(fields, "path").s| >= 1
      && AbsentOrIn(Get(fields, "operator"), ComparisonNames)
      && AbsentOrIn(Get(fields, "valueType"), ValueTypeNames)
      && (Get(fields, "expectedValue") == Undefined || Get(fields, "expectedValue").Str?)
      && AbsentOrIn(Get(fields, "missingRoute"), RouteNames)
  {
    SwitchFields(fields);
    StringField(1, Get(fields, "path"));
    OptionalStringField(Get(fields, "expectedValue"));
    EnumDefault(ComparisonNames, "equals", Get(fields, "operator"));
    EnumDefault(ValueTypeNames, "string", Get(fields, "valueType"));
    EnumDefault(RouteNames, "default", Get(fields, "missingRoute"));
  }

  /** An optional string parameter as the value the object holds. */
  function OptionalText(text: Option<string>): Value {
    match text
    case None => Undefined
    case Some(s) => Str(s)
  }

  /** Accepted parameters always give the handler a typed view: `path` is
      the given non-empty string, an absent `operator` is "equals", an
      absent `valueType` is "string", an absent `missingRoute` is
      "default", and `expectedValue` is the given string, if any. */
  lemma SwitchParametersRead(fields: map<string, Value>)
    requires Parse(SwitchParameterSchema(), Obj(fields)).Success?
    ensures var p := ReadParams(Parse(SwitchParameterSchema(), Obj(fields)).value);
      && p.Some?
      && Get(fields, "path") == Str(p.value.path) && p.value.path != []
      && (Get(fields, "operator") == Undefined ==> p.value.operator == EqualsOp)
      && (Get(fields, "operator") != Undefined ==> Get(fields, "operator") == Str(ComparisonName(p.value.operator)))
      && (Get(fields, "valueType") == Undefined ==> p.value.valueType == StringType)
      && (Get(fields, "valueType") != Undefined ==> Get(fields, "valueType") == Str(ValueTypeName(p.value.valueType)))
      && (Get(fields, "missingRoute") == Undefined ==> p.value.missingRoute == DefaultRoute)
      && (Get(fields, "missingRoute") != Undefined ==> Get(fields, "missingRoute") == Str(RouteName(p.value.missingRoute)))
      && Get(fields, "expectedValue") == OptionalText(p.value.expectedValue)
  {
    SwitchFields(fields);
    var out := Parse(SwitchParameterSchema(), Obj(fields)).value;
    StringField(1, Get(fields, "path"));
    OptionalStringField(Get(fields, "expectedValue"));
    EnumDefault(ComparisonNames, "equals", Get(fields, "operator"));
    EnumDefault(ValueTypeNames, "string", Get(fields, "valueType"));
    EnumDefault(RouteNames, "default", Get(fields, "missingRoute"));
    ReadParamsOf(out, fields);
  }

  /** The typed view of an object holding what the switch parameter
      schema produces from `fields`. */
  lemma ReadParamsOf(out: Value, fields: map<string, Value>)
    requires out.Obj?
    requires Get(fields, "path").Str? && |Get(fields, "path").s| >= 1 && Get(out.fields, "path") == Get(fields, "path")
    requires Get(out.fields, "operator") == if Get(fields, "operator") == Undefined then Str("equals") else Get(fields, "operator")
    requires AbsentOrIn(Get(fields, "operator"), ComparisonNames)
    requires Get(out.fields, "valueType") == if Get(fields, "valueType") == Undefined then Str("string") else Get(fields, "valueType")
    requires AbsentOrIn(Get(fields, "valueType"), ValueTypeNames)
    requires Get(out.fields, "missingRoute") == if Get(fields, "missingRoute") == Undefined then Str("default") else Get(fields, "missingRoute")
    requires AbsentOrIn(Get(fields, "missingRoute"), RouteNames)
    requires Get(out.fields, "expectedValue") == Get(fields, "expectedValue")
    requires Get(fields, "expectedValue") == Undefined || Get(fields, "expectedValue").Str?
    ensures var p := ReadParams(out);
      && p.Some?
      && Get(fields, "path") == Str(p.value.path) && p.value.path != []
      && (Get(fields, "operator") == Undefined ==> p.value.operator == EqualsOp)
      && (Get(fields, "operator") != Undefined ==> Get(fields, "operator") == Str(ComparisonName(p.value.operator)))
      && (Get(fields, "valueType") == Undefined ==> p.value.valueType == StringType)
      && (Get(fields, "valueType") != Undefined ==> Get(fields, "valueType") == Str(ValueTypeName(p.value.valueType)))
      && (Get(fields, "missingRoute") == Undefined ==> p.value.missingRoute == DefaultRoute)
      && (Get(fields, "missingRoute") != Undefined ==> Get(fields, "missingRoute") == Str(RouteName(p.value.missingRoute)))
      && Get(fields, "expectedValue") == OptionalText(p.value.expectedValue)
  {
    var operator := Get(out.fields, "operator");
    var valueType := Get(out.fields, "valueType");
    var missing := Get(out.fields, "missingRoute");
    ComparisonNamesSpec(EqualsOp, operator.s);
    ValueTypeNamesSpec(StringType, valueType.s);
    RouteNamesSpec(DefaultRoute, missing.s);
  }

  /** `path.trim()` split on "." into trimmed, non-empty segments; each
      piece is trimmed and an empty one dropped. */
  function Segments(pieces: seq<string>): (r: seq<string>)
    ensures forall i :: 0 <= i < |r| ==> r[i] != []
    decreases |pieces|
  {
    if pieces == [] then []
    else
      var segment := Trim(pieces[0]);
      (if segment == [] then [] else [segment]) + Segments(pieces[1..])
  }

  function PathSegments(trimmedPath: string): seq<string> {
    Segments(Split(trimmedPath, '.'))
  }

  /** Following the segments one own key at a time; `null`, a primitive,
      an array or a missing key on the way gives `undefined`. */
  function Walk(current: Value, segments: seq<string>): Value
    decreases |segments|
  {
    if segments == [] then current
    else if !current.Obj? || segments[0] !in current.fields then Undefined
    else Walk(current.fields[segments[0]], segments[1..])
  }

  /** What `resolvePathValue(data, path)` returns. */
  function PathValue(data: Value, path: string): Value {
    var trimmedPath := Trim(path);
    if trimmedPath == [] then Undefined else Walk(data, PathSegments(trimmedPath))
  }

  /** `resolvePathValue(data, path)`. */
  method ResolvePathValue(data: Value, path: string) returns (r: Value)
    ensures r == PathValue(data, path)
  {
    var trimmedPath := Trim(path);
    if |trimmedPath| == 0 {
      return Undefined;
    }
    var segments := PathSegments(trimmedPath);
    var current := data;
    var i := 0;
    while i < |segments|
      invariant 0 <= i <= |segments|
      invariant Walk(current, segments[i..]) == Walk(data, segments)
    {
      var segment := segments[i];
      if !current.Obj? {
        return Undefined;
      }
      if segment !in current.fields {
        return Undefined;
      }
      assert segments[i..][1..] == segments[i + 1..];
      current := current.fields[segment];
      i := i + 1;
    }
    return current;
  }

  /** Walking a path is walking its first part, then the rest from there:
      once the walk reaches `undefined` it stays there. */
  lemma {:induction false} WalkAppend(v: Value, first: seq<string>, rest: seq<string>)
    ensures Walk(v, first + rest) == Walk(Walk(v, first), rest)
    decreases |first|
  {
    if first == [] {
      assert first + rest == rest;
    } else {
      assert (first + rest)[1..] == first[1..] + rest;
      if v.Obj? && first[0] in v.fields {
        WalkAppend(v.fields[first[0]], first[1..], rest);
      } else {
        assert Walk(v, first) == Undefined;
        assert rest == [] || Walk(Undefined, rest) == Undefined;
      }
    }
  }

  /** A walk that passes through anything other than an object holding
      the next key gives `undefined`. */
  lemma {:induction false} WalkStops(v: Value, before: seq<string>, key: string, after: seq<string>)
    requires var reached := Walk(v, before); !reached.Obj? || key !in reached.fields
    ensures Walk(v, before + [key] + after) == Undefined
  {
    WalkAppend(v, before, [key] + after);
    assert before + [key] + after == before + ([key] + after);
  }

  lemma {:induction false} SegmentsAppend(a: seq<string>, b: seq<string>)
    ensures Segments(a + b) == Segments(a) + Segments(b)
    decreases |a|
  {
    if a != [] {
      assert (a + b)[1..] == a[1..] + b;
      SegmentsAppend(a[1..], b);
    } else {
      assert a + b == b;
    }
  }

  /** Empty segments are dropped: "a..b" reads like "a.b". */
  lemma {:induction false} EmptySegmentIgnored(a: string, b: string)
    requires '.' !in a
    ensures PathSegments(a + ['.', '.'] + b) == PathSegments(a + ['.'] + b)
  {
    assert a + ['.', '.'] + b == a + ['.'] + (['.'] + b);
    SplitAppend(a, ['.'] + b, '.');
    SplitAppend(a, b, '.');
    assert ([] + ['.'] + b) == ['.'] + b;
    SplitAppend([], b, '.');
    assert Split([], '.') == [""];
    SegmentsAppend(Split(a, '.'), Split(['.'] + b, '.'));
    SegmentsAppend(Split(a, '.'), Split(b, '.'));
    SegmentsAppend([""], Split(b, '.'));
    assert Trim("") == "";
  }

  /** A blank path reads as `undefined`, and "." as the whole context. */
  lemma PathEdgeCases(data: Value, path: string)
    ensures Trim(path) == [] ==> PathValue(data, path) == Undefined
    ensures PathValue(data, ".") == data
  {
    assert TrimStart(".") == ".";
    assert TrimEnd(".") == ".";
    assert "."[1..] == [];
    assert Split(".", '.') == ["", ""];
    assert Trim("") == "";
    assert Segments(["", ""]) == [];
  }

  /** Joining keys with "." and resolving the result walks exactly those
      keys, when each key is non-empty, holds no "." and has no
      surrounding whitespace. */
  lemma {:induction false} ResolveJoinedKeys(data: Value, keys: seq<string>)
    requires |keys| > 0
    requires forall i :: 0 <= i < |keys| ==> keys[i] != [] && '.' !in keys[i] && Trim(keys[i]) == keys[i]
    ensures PathValue(data, Join(keys, '.')) == Walk(data, keys)
  {
    JoinSplit(keys, '.');
    SegmentsOfTrimmed(keys);
    JoinTrimmed(keys);
  }

  lemma {:induction false} SegmentsOfTrimmed(keys: seq<string>)
    requires forall i :: 0 <= i < |keys| ==> keys[i] != [] && Trim(keys[i]) == keys[i]
    ensures Segments(keys) == keys
    decreases |keys|
  {
    if keys != [] {
      SegmentsOfTrimmed(keys[1..]);
    }
  }

  /** A joined path of trimmed, non-empty keys is already trimmed. */
  lemma {:induction false} JoinTrimmed(keys: seq<string>)
    requires |keys| > 0
    requires forall i :: 0 <= i < |keys| ==> keys[i] != [] && Trim(keys[i]) == keys[i]
    ensures Trim(Join(keys, '.')) == Join(keys, '.')
  {
    var s := Join(keys, '.');
    JoinEnds(keys);
    TrimSpec(keys[0]);
    TrimSpec(keys[|keys| - 1]);
    TrimOfTrimmed(s);
  }

  lemma {:induction false} JoinEnds(keys: seq<string>)
    requires |keys| > 0
    requires forall i :: 0 <= i < |keys| ==> keys[i] != []
    ensures var s := Join(keys, '.');
      |s| > 0 && s[0] == keys[0][0] && s[|s| - 1] == keys[|keys| - 1][|keys[|keys| - 1]| - 1]
    decreases |keys|
  {
    if |keys| > 1 {
      JoinEnds(keys[1..]);
    }
  }

  /** `coerceValue(value, valueType)`. */
  function CoerceValue(value: Value, valueType: ValueType): Value {
    if value == Undefined || value == Null then Undefined
    else
      match valueType
      case NumberType =>
        (match ToNumber(value)
         case None => Undefined
         case Some(n) => Num(n))
      case BooleanType =>
        if value.Bool? then value
        else if value.Str? && ToLowerAscii(value.s) == "true" then Bool(true)
        else if value.Str? && ToLowerAscii(value.s) == "false" then Bool(false)
        else if value == Num(1) then Bool(true)
        else if value == Num(0) then Bool(false)
        else Undefined
      case StringType =>
        if value.Str? then value else Str(ToJsString(value))
  }

  /** What coercion yields for each target type: `undefined` for a missing
      value; for "number" the value `Number()` gives unless it is `NaN`;
      for "boolean" only booleans, "true"/"false" in any case and 1/0;
      for "string" `String(value)`. */
  lemma CoerceValueSpec(value: Value, valueType: ValueType)
    ensures value == Undefined || value == Null ==> CoerceValue(value, valueType) == Undefined
    ensures valueType == NumberType ==>
      (CoerceValue(value, valueType).Num? <==> value != Null && ToNumber(value).Some?)
      && (CoerceValue(value, valueType).Num? ==> CoerceValue(value, valueType).n == ToNumber(value).value)
      && (!CoerceValue(value, valueType).Num? ==> CoerceValue(value, valueType) == Undefined)
    ensures valueType == BooleanType ==>
      && (CoerceValue(value, valueType) == Bool(true) <==>
            value == Bool(true) || value == Num(1) || (value.Str? && ToLowerAscii(value.s) == "true"))
      && (CoerceValue(value, valueType) == Bool(false) <==>
            value == Bool(false) || value == Num(0) || (value.Str? && ToLowerAscii(value.s) == "false"))
      && (CoerceValue(value, valueType).Bool? || CoerceValue(value, valueType) == Undefined)
    ensures valueType == StringType && value != Undefined && value != Null ==>
      CoerceValue(value, valueType) == Str(ToJsString(value))
  {
  }

  /** Coercing a coerced value again changes nothing. */
  lemma CoerceIdempotent(value: Value, valueType: ValueType)
    ensures CoerceValue(CoerceValue(value, valueType), valueType) == CoerceValue(value, valueType)
  {
  }

  /** A number rendered by the "string" coercion reads back as itself
      under "number". */
  lemma CoerceNumberRoundTrip(n: int)
    ensures CoerceValue(CoerceValue(Num(n), StringType), NumberType) == Num(n)
  {
    NumberOfString(n);
  }

  /** The "number" coercion of a string is the value `Number()` reads
      from it, in any notation it accepts. */
  lemma CoerceNumberString(s: string, n: int)
    requires StringToNumber(s) == Some(n)
    ensures CoerceValue(Str(s), NumberType) == Num(n)
  {
  }

  /** An actual value "1e3" and an expected value "1000" both coerce to
      1000 under "number", so `equals` holds between them. */
  lemma CoerceExponentMatches(actual: string, expected: string)
    requires actual == "1e3" && expected == "1000"
    ensures CoerceValue(Str(actual), NumberType) == Num(1000)
    ensures CoerceValue(Str(expected), NumberType) == Num(1000)
    ensures EvaluateComparison(CoerceValue(Str(actual), NumberType), CoerceValue(Str(expected), NumberType), EqualsOp)
  {
    assert StringToNumber(actual) == Some(1000) by {
      ExponentExample();
    }
    assert StringToNumber(expected) == Some(1000) by {
      ThousandExample();
    }
    CoerceNumberString(actual, 1000);
    CoerceNumberString(expected, 1000);
  }

  /** A boolean rendered by the "string" coercion reads back as itself
      under "boolean". */
  lemma CoerceBooleanRoundTrip(b: bool)
    ensures CoerceValue(CoerceValue(Bool(b), StringType), BooleanType) == Bool(b)
  {
    var text := if b then "true" else "false";
    assert CoerceValue(Bool(b), StringType) == Str(text);
    LowerAsciiUnchanged(text);
  }

  /** `requiresExpectedValue(operator)`. */
  function RequiresExpectedValue(operator: Comparison): (r: bool)
    ensures r <==> operator !in {ExistsOp, NotExistsOp}
  {
    operator != ExistsOp && operator != NotExistsOp
  }

  /** `evaluateComparison({left, right, operator})`. Strict equality is
      equality of values: coerced values are never objects. */
  function EvaluateComparison(left: Value, right: Value, operator: Comparison): bool {
    if operator == ExistsOp then left != Undefined && left != Null
    else if operator == NotExistsOp then left == Undefined || left == Null
    else if left == Undefined || right == Undefined then false
    else if operator == EqualsOp then left == right
    else if operator == NotEqualsOp then left != right
    else if !left.Num? || !right.Num? then false
    else if operator == GreaterThanOp then left.n > right.n
    else left.n < right.n
  }

  /** "exists" holds exactly for a present value and "notExists" is its
      negation; every other operator is false when either side is
      missing; "notEquals" is the negation of "equals" on present values;
      the orderings need two numbers and mirror each other. */
  lemma ComparisonSpec(left: Value, right: Value, operator: Comparison)
    ensures EvaluateComparison(left, right, ExistsOp) <==> left != Undefined && left != Null
    ensures EvaluateComparison(left, right, NotExistsOp) == !EvaluateComparison(left, right, ExistsOp)
    ensures RequiresExpectedValue(operator) && (left == Undefined || right == Undefined) ==>
      !EvaluateComparison(left, right, operator)
    ensures EvaluateComparison(left, right, EqualsOp) <==> left == right && left != Undefined
    ensures left != Undefined && right != Undefined ==>
      EvaluateComparison(left, right, NotEqualsOp) == !EvaluateComparison(left, right, EqualsOp)
    ensures EvaluateComparison(left, right, GreaterThanOp) <==> left.Num? && right.Num? && left.n > right.n
    ensures EvaluateComparison(left, right, GreaterThanOp) == EvaluateComparison(right, left, LessThanOp)
    ensures !(EvaluateComparison(left, right, GreaterThanOp) && EvaluateComparison(left, right, LessThanOp))
  {
  }

  /** The coerced expected value; `undefined` when none is given. */
  function Expected(params: SwitchParams): Value {
    match params.expectedValue
    case None => Undefined
    case Some(s) => CoerceValue(Str(s), params.valueType)
  }

  /** The `matched` flag for the value read at the path. */
  function IsMatched(params: SwitchParams, rawValue: Value): bool {
    var expected := Expected(params);
    var canCompare := !RequiresExpectedValue(params.operator) || expected != Undefined;
    canCompare && EvaluateComparison(CoerceValue(rawValue, params.valueType), expected, params.operator)
  }

  function UsesMissingRoute(params: SwitchParams, rawValue: Value): bool {
    rawValue == Undefined && params.operator != ExistsOp && params.operator != NotExistsOp
  }

  function SelectedRoute(params: SwitchParams, rawValue: Value): Route {
    if UsesMissingRoute(params, rawValue) then params.missingRoute
    else if IsMatched(params, rawValue) then MatchRoute
    else DefaultRoute
  }

  /** An operator that needs an expected value never matches without one
      that coerces; a missing value takes `missingRoute` unless the
      operator tests presence; otherwise the route is "match" exactly when
      the comparison matched. */
  lemma RouteSelection(params: SwitchParams, rawValue: Value)
    ensures RequiresExpectedValue(params.operator) && Expected(params) == Undefined ==> !IsMatched(params, rawValue)
    ensures RequiresExpectedValue(params.operator) && rawValue == Undefined ==> !IsMatched(params, rawValue)
    ensures UsesMissingRoute(params, rawValue) <==>
      rawValue == Undefined && RequiresExpectedValue(params.operator)
    ensures UsesMissingRoute(params, rawValue) ==> SelectedRoute(params, rawValue) == params.missingRoute
    ensures !UsesMissingRoute(params, rawValue) ==>
      (SelectedRoute(params, rawValue) == MatchRoute <==> IsMatched(params, rawValue))
    ensures params.operator == ExistsOp ==>
      (SelectedRoute(params, rawValue) == MatchRoute <==> CoerceValue(rawValue, params.valueType) != Undefined)
  {
    ComparisonSpec(CoerceValue(rawValue, params.valueType), Expected(params), params.operator);
    CoerceValueSpec(rawValue, params.valueType);
  }

  /** The three emissions the handler makes, in order. */
  function SwitchEmissions(params: SwitchParams, contextData: Value): seq<Emission> {
    var rawValue := PathValue(contextData, params.path);
    [ Emission("route", Str(RouteName(SelectedRoute(params, rawValue)))),
      Emission("matched", Bool(IsMatched(params, rawValue))),
      Emission("value", Coalesce(rawValue, Null)) ]
  }

  /** `ctx.context ?? {}`; reading `context` off `null` or `undefined`
      throws. */
  function ContextData(ctx: Value): Option<Value> {
    if ctx == Undefined || ctx == Null then None
    else if ctx.Obj? then Some(Coalesce(Get(ctx.fields, "context"), Obj(map[])))
    else Some(Obj(map[]))
  }

  /** The handler of `runSwitchNode`, as the executor sees it. */
  function SwitchHandler(hc: HandlerContext): HandlerRun {
    match ReadParams(hc.parameters)
    case None => HandlerRun([], Some("TypeError"))
    case Some(params) =>
      match ContextData(hc.ctx)
      case None => HandlerRun([], Some("TypeError"))
      case Some(contextData) => HandlerRun(SwitchEmissions(params, contextData), None)
  }

  /** The handler's body: resolve, coerce, compare, pick a route, emit. */
  method RunSwitch(params: SwitchParams, contextData: Value) returns (emissions: seq<Emission>)
    ensures emissions == SwitchEmissions(params, contextData)
  {
    var rawValue := ResolvePathValue(contextData, params.path);
    var coercedActual := CoerceValue(rawValue, params.valueType);
    var expected := if params.expectedValue.None? then Undefined
      else CoerceValue(Str(params.expectedValue.value), params.valueType);
    var canCompare := !RequiresExpectedValue(params.operator) || expected != Undefined;
    var matched := if canCompare then EvaluateComparison(coercedActual, expected, params.operator) else false;
    var shouldUseMissingRoute := rawValue == Undefined && params.operator != ExistsOp && params.operator != NotExistsOp;
    var route: Route;
    if shouldUseMissingRoute {
      route := params.missingRoute;
    } else if matched {
      route := MatchRoute;
    } else {
      route := DefaultRoute;
    }
    emissions := [];
    emissions := emissions + [Emission("route", Str(RouteName(route)))];
    emissions := emissions + [Emission("matched", Bool(matched))];
    emissions := emissions + [Emission("value", Coalesce(rawValue, Null))];
  }

  /** `defineNode` gives the switch node the written-out parameter schema,
      an empty input object and its three output ports. */
  lemma SwitchDefinitionParts()
    ensures SwitchDefinition().parameterSchema == SwitchParameterSchema()
    ensures SwitchDefinition().inputSchema == ObjectS([])
    ensures SwitchDefinition().ports.outputs == SwitchPorts().outputs
    ensures SwitchDefinition().manifest.id == "switch"
  {
    SwitchShape();
  }

  /** An object schema with no fields accepts `{}`, a missing value read
      as `{}`, and every object, and parses each to `{}`. */
  lemma NoInputs(inputs: Value)
    requires inputs == Undefined || inputs == Null || inputs.Obj?
    ensures Parse(ObjectS([]), Coalesce(inputs, Obj(map[]))) == Success(Obj(map[]))
  {
  }

  /** The output ports of the switch node, looked up by id. */
  lemma SwitchOutputPorts()
    ensures Lookup(SwitchPorts().outputs, "route") == Some(PortDefinition("route", "Selected route", EnumS(RouteNames), None, None, None))
    ensures Lookup(SwitchPorts().outputs, "matched") == Some(PortDefinition("matched", "Matched", BooleanS, None, None, None))
    ensures Lookup(SwitchPorts().outputs, "value") == Some(PortDefinition("value", "Resolved value", UnknownS, None, None, None))
  {
  }

  /** An emission on a single-valued port whose schema returns the payload
      as it is, is accepted and stored unchanged. */
  lemma SingleAccepted(outputs: PortRecord, e: Emission, schema: Schema)
    requires Lookup(outputs, e.portId).Some?
    requires Lookup(outputs, e.portId).value.schema == schema && Lookup(outputs, e.portId).value.multiplicity == None
    requires Parse(schema, e.payload) == Success(e.payload)
    ensures ValidEmission(outputs, e) && Validated(outputs, e) == e.payload
  {
  }

  /** The three ports accept the route, the flag and any value, and the
      emitted object lists them in emission order. */
  lemma SwitchEmitsAccepted(nodeId: string, route: Route, matched: bool, value: Value)
    ensures EmitAll(SwitchPorts().outputs, nodeId, [],
        [Emission("route", Str(RouteName(route))), Emission("matched", Bool(matched)), Emission("value", value)])
      == Success([("route", Str(RouteName(route))), ("matched", Bool(matched)), ("value", value)])
  {
    var outputs := SwitchPorts().outputs;
    var emissions := [Emission("route", Str(RouteName(route))), Emission("matched", Bool(matched)), Emission("value", value)];
    SwitchOutputPorts();
    RouteNamesSpec(route, "");
    SingleAccepted(outputs, emissions[0], EnumS(RouteNames));
    SingleAccepted(outputs, emissions[1], BooleanS);
    SingleAccepted(outputs, emissions[2], UnknownS);
    EmitThree(outputs, nodeId, emissions[0], emissions[1], emissions[2]);
  }

  /** With parameters the handler can read and a context it can open, the
      handler returns the three emissions. */
  lemma SwitchRun(definition: NodeDefinition, ctx: Value, parameters: Value, inputs: Value, params: SwitchParams, contextData: Value)
    requires Parse(definition.parameterSchema, Coalesce(parameters, Obj(map[]))).Success?
    requires Parse(definition.inputSchema, Coalesce(inputs, Obj(map[]))).Success?
    requires ReadParams(Parse(definition.parameterSchema, Coalesce(parameters, Obj(map[]))).value) == Some(params)
    requires ContextData(ctx) == Some(contextData)
    ensures RunOf(definition, SwitchHandler, ctx, parameters, inputs) == HandlerRun(SwitchEmissions(params, contextData), None)
  {
  }

  /** Run through the executor with accepted parameters and a context,
      a node with the switch's schemas, outputs and handler returns
      exactly `route`, `matched` and `value`, in that order, holding the
      selected route, the match flag and the value read (`null` when there
      is none); by `SwitchDefinitionParts`, `switchNode` is such a node. */
  lemma SwitchExecution(definition: NodeDefinition, ctx: Value, fields: map<string, Value>, inputs: Value)
    requires definition.parameterSchema == SwitchParameterSchema() && definition.inputSchema == ObjectS([])
    requires definition.ports.outputs == SwitchPorts().outputs
    requires Parse(SwitchParameterSchema(), Obj(fields)).Success?
    requires ctx != Undefined && ctx != Null
    requires inputs == Undefined || inputs == Null || inputs.Obj?
    ensures ReadParams(Parse(SwitchParameterSchema(), Obj(fields)).value).Some?
    ensures var params := ReadParams(Parse(SwitchParameterSchema(), Obj(fields)).value);
      var rawValue := PathValue(ContextData(ctx).value, params.value.path);
      ExecutionResult(definition, SwitchHandler, ctx, Obj(fields), inputs) == Success(
        [ ("route", Str(RouteName(SelectedRoute(params.value, rawValue)))),
          ("matched", Bool(IsMatched(params.value, rawValue))),
          ("value", Coalesce(rawValue, Null)) ])
  {
    SwitchParametersRead(fields);
    NoInputs(inputs);
    var parsed := Parse(SwitchParameterSchema(), Obj(fields)).value;
    var params := ReadParams(parsed).value;
    var contextData := ContextData(ctx).value;
    var rawValue := PathValue(contextData, params.path);
    SwitchRun(definition, ctx, Obj(fields), inputs, params, contextData);
    SwitchEmitsAccepted(definition.manifest.id, SelectedRoute(params, rawValue), IsMatched(params, rawValue), Coalesce(rawValue, Null));
    ExecutionSucceeds(definition, SwitchHandler, ctx, Obj(fields), inputs,
      [ ("route", Str(RouteName(SelectedRoute(params, rawValue)))),
        ("matched", Bool(IsMatched(params, rawValue))),
        ("value", Coalesce(rawValue, Null)) ]);
  }
}
