/** Parameter definitions and the object schema derived from them
    (packages/nodes/src/core/parameters.ts). A parameter's `defaultValue` is
    `Undefined` when the definition leaves it out. */
module Parameters {
  import opened Wrappers
  import opened JsValues
  import opened Entries
  import opened Schemas

  datatype ParameterControl = TextControl | TextareaControl | NumberControl | SelectControl | JsonControl

  datatype ParameterOption = ParameterOption(labelText: string, value: string)

  /** A parameter definition; its `description` is display text and is
      not modelled. */
  datatype ParameterDefinition = ParameterDefinition(
    id: string,
    labelText: string,
    schema: Schema,
    defaultValue: Value,
    required: Option<bool>,
    control: Option<ParameterControl>,
    options: Option<seq<ParameterOption>>)

  /** A `Record<string, ParameterDefinition>`, as `Object.entries` lists it. */
  type ParameterDefinitions = seq<(string, ParameterDefinition)>

  /** `defineParameter` hands its definition back untouched. */
  function DefineParameter(definition: ParameterDefinition): (r: ParameterDefinition)
    ensures r == definition
  {
    definition
  }

  /** The schema `withOptionals` produces. */
  function WithMeta(schema: Schema, defaultValue: Value, required: Option<bool>): Schema {
    var withDefault := if defaultValue != Undefined then DefaultS(schema, defaultValue) else schema;
    if required == Some(false) then OptionalS(withDefault) else withDefault
  }

  /** What the wrapped schema accepts: a defined default makes `undefined`
      read as the default; `required: false` lets `undefined` through; every
      other value is checked by the declared schema alone. */
  lemma WithMetaSemantics(schema: Schema, defaultValue: Value, required: Option<bool>, v: Value)
    ensures v != Undefined ==> Parse(WithMeta(schema, defaultValue, required), v) == Parse(schema, v)
    ensures defaultValue != Undefined ==> Parse(WithMeta(schema, defaultValue, required), Undefined) == Success(defaultValue)
    ensures required == Some(false) ==> Parse(WithMeta(schema, defaultValue, required), Undefined).Success?
    ensures defaultValue == Undefined && required != Some(false) ==>
      Parse(WithMeta(schema, defaultValue, required), Undefined) == Parse(schema, Undefined)
  {
    var withDefault := if defaultValue != Undefined then DefaultS(schema, defaultValue) else schema;
    OptionalSemantics(withDefault, v);
  }

  /** The wrapping order: the default goes inside, `.optional()` outside;
      a parameter with neither keeps its declared schema. */
  lemma WithMetaOrder(schema: Schema, defaultValue: Value, required: Option<bool>)
    ensures defaultValue == Undefined && required != Some(false) ==> WithMeta(schema, defaultValue, required) == schema
    ensures defaultValue != Undefined && required != Some(false) ==> WithMeta(schema, defaultValue, required) == DefaultS(schema, defaultValue)
    ensures defaultValue == Undefined && required == Some(false) ==> WithMeta(schema, defaultValue, required) == OptionalS(schema)
    ensures defaultValue != Undefined && required == Some(false) ==>
      WithMeta(schema, defaultValue, required) == OptionalS(DefaultS(schema, defaultValue))
  {
  }

  /** `withOptionals(schema, defaultValue, required)`. */
  method WithOptionals(schema: Schema, defaultValue: Value, required: Option<bool>) returns (schemaWithMeta: Schema)
    ensures schemaWithMeta == WithMeta(schema, defaultValue, required)
  {
    schemaWithMeta := schema;
    if defaultValue != Undefined {
      schemaWithMeta := DefaultS(schemaWithMeta, defaultValue);
    }
    if required == Some(false) {
      schemaWithMeta := OptionalS(schemaWithMeta);
    }
  }

  function ParameterSchema(parameter: ParameterDefinition): Schema {
    WithMeta(parameter.schema, parameter.defaultValue, parameter.required)
  }

  /** The object schema `buildParameterSchema` returns. */
  function ParameterObjectSchema(definitions: ParameterDefinitions): (r: Schema)
    ensures r.ObjectS?
  {
    ObjectS(PutAll(definitions, ParameterSchema))
  }

  /** `buildParameterSchema(definitions)`: one shape entry per parameter. */
  method BuildParameterSchema(definitions: ParameterDefinitions) returns (r: Schema)
    ensures r == ParameterObjectSchema(definitions)
  {
    var shape: seq<(string, Schema)> := [];
    for i := 0 to |definitions|
      invariant shape == PutAll(definitions[..i], ParameterSchema)
    {
      var key := definitions[i].0;
      var parameter := definitions[i].1;
      var schemaWithMeta := WithOptionals(parameter.schema, parameter.defaultValue, parameter.required);
      assert definitions[..i + 1][..i] == definitions[..i];
      shape := Put(shape, key, schemaWithMeta);
    }
    assert definitions[..|definitions|] == definitions;
    r := ObjectS(shape);
  }

  /** The shape has exactly one entry per parameter key and no others. */
  lemma {:induction false} ParameterShapeKeys(definitions: ParameterDefinitions)
    ensures var shape := ParameterObjectSchema(definitions).shape;
      Distinct(Keys(shape)) && forall k :: k in Keys(shape) <==> k in Keys(definitions)
  {
    PutAllKeys(definitions, ParameterSchema);
  }

  /** Parsing the empty object `{}` (what the executor does when no
      parameters are given) succeeds exactly when every parameter accepts a
      missing value. */
  lemma {:induction false} MissingParametersAccepted(definitions: ParameterDefinitions)
    requires Distinct(Keys(definitions))
    ensures Parse(ParameterObjectSchema(definitions), Obj(map[])).Success? <==>
      forall i :: 0 <= i < |definitions| ==> Parse(ParameterSchema(definitions[i].1), Undefined).Success?
  {
    var shape := PutAll(definitions, ParameterSchema);
    PutAllDistinct(definitions, ParameterSchema);
    EmptyObjectAccepted(shape);
  }

  /** When `{}` parses, every parameter with a default reads as its
      default. */
  lemma {:induction false} MissingParametersTakeDefaults(definitions: ParameterDefinitions)
    requires Distinct(Keys(definitions))
    requires Parse(ParameterObjectSchema(definitions), Obj(map[])).Success?
    ensures var out := Parse(ParameterObjectSchema(definitions), Obj(map[])).value;
      out.Obj? && forall i :: 0 <= i < |definitions| && definitions[i].1.defaultValue != Undefined ==>
        definitions[i].0 in out.fields && out.fields[definitions[i].0] == definitions[i].1.defaultValue
  {
    var shape := PutAll(definitions, ParameterSchema);
    PutAllDistinct(definitions, ParameterSchema);
    assert Keys(shape) == Keys(definitions);
    EmptyObjectOutput(shape);
    forall i | 0 <= i < |definitions| && definitions[i].1.defaultValue != Undefined
      ensures Parse(shape[i].1, Undefined) == Success(definitions[i].1.defaultValue)
    {
      var p := definitions[i].1;
      WithMetaSemantics(p.schema, p.defaultValue, p.required, Undefined);
    }
  }
}
