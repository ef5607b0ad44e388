/** Port declarations and the input schema derived from them
    (packages/nodes/src/core/ports.ts). */
module Ports {
  import opened Wrappers
  import opened JsValues
  import opened Entries
  import opened Schemas

  datatype Multiplicity = Single | Many

  /** A port definition; its `description` is display text and is not
      modelled. */
  datatype PortDefinition = PortDefinition(
    id: string,
    labelText: string,
    schema: Schema,
    required: Option<bool>,
    capabilities: Option<seq<string>>,
    multiplicity: Option<Multiplicity>)

  /** A `Record<string, PortDefinition>`, as `Object.entries` lists it. */
  type PortRecord = seq<(string, PortDefinition)>

  datatype PortsDefinition = PortsDefinition(inputs: PortRecord, outputs: PortRecord)

  /** `definePort` hands its definition back untouched. */
  function DefinePort(definition: PortDefinition): (r: PortDefinition)
    ensures r == definition
  {
    definition
  }

  /** `port.multiplicity ?? "single"`. */
  function EffectiveMultiplicity(port: PortDefinition): (r: Multiplicity)
    ensures r == Many <==> port.multiplicity == Some(Many)
  {
    port.multiplicity.GetOr(Single)
  }

  /** The schema one value on the port must satisfy: a "many" port carries
      an array of its declared schema. */
  function PayloadSchema(port: PortDefinition): Schema {
    if EffectiveMultiplicity(port) == Many then ArrayS(port.schema) else port.schema
  }

  /** The shape entry `buildShape` makes for a port. */
  function PortSchema(port: PortDefinition): Schema {
    if port.required == Some(false) then OptionalS(PayloadSchema(port)) else PayloadSchema(port)
  }

  /** The wrapping order: the array wrapper goes inside, `.optional()`
      outside; a "single" port that is not optional keeps its schema. */
  lemma PortSchemaOrder(port: PortDefinition)
    ensures port.multiplicity != Some(Many) && port.required != Some(false) ==> PortSchema(port) == port.schema
    ensures port.multiplicity == Some(Many) && port.required != Some(false) ==> PortSchema(port) == ArrayS(port.schema)
    ensures port.multiplicity != Some(Many) && port.required == Some(false) ==> PortSchema(port) == OptionalS(port.schema)
    ensures port.multiplicity == Some(Many) && port.required == Some(false) ==>
      PortSchema(port) == OptionalS(ArrayS(port.schema))
  {
  }

  /** What the port's shape entry accepts: an optional port lets
      `undefined` through; any other value, and `undefined` on a port that is
      not optional, is checked by the payload schema; a "many" port takes
      exactly the arrays whose every element matches the declared schema. */
  lemma PortSchemaSemantics(port: PortDefinition, v: Value)
    ensures port.required == Some(false) ==> Parse(PortSchema(port), Undefined).Success?
    ensures v != Undefined || port.required != Some(false) ==> Parse(PortSchema(port), v) == Parse(PayloadSchema(port), v)
    ensures EffectiveMultiplicity(port) == Many ==> !Parse(PayloadSchema(port), Undefined).Success?
    ensures EffectiveMultiplicity(port) == Many && v.Arr? ==>
      (Parse(PayloadSchema(port), v).Success? <==> forall i :: 0 <= i < |v.items| ==> Parse(port.schema, v.items[i]).Success?)
  {
    OptionalSemantics(PayloadSchema(port), v);
    if v.Arr? {
      ArraySemantics(port.schema, v.items);
    }
  }

  /** `buildShape(ports)`: one shape entry per port. */
  method BuildShape(ports: PortRecord) returns (shape: seq<(string, Schema)>)
    ensures shape == PutAll(ports, PortSchema)
  {
    shape := [];
    for i := 0 to |ports|
      invariant shape == PutAll(ports[..i], PortSchema)
    {
      var key := ports[i].0;
      var port := ports[i].1;
      var multiplicity := port.multiplicity.GetOr(Single);
      var schema := if multiplicity == Many then ArrayS(port.schema) else port.schema;
      var schemaWithOptional := if port.required == Some(false) then OptionalS(schema) else schema;
      assert ports[..i + 1][..i] == ports[..i];
      shape := Put(shape, key, schemaWithOptional);
    }
    assert ports[..|ports|] == ports;
  }

  /** The object schema `buildPortSchema` returns. */
  function PortObjectSchema(ports: PortRecord): (r: Schema)
    ensures r.ObjectS?
  {
    ObjectS(PutAll(ports, PortSchema))
  }

  /** `buildPortSchema(ports)`. */
  method BuildPortSchema(ports: PortRecord) returns (r: Schema)
    ensures r == PortObjectSchema(ports)
  {
    var shape := BuildShape(ports);
    r := ObjectS(shape);
  }

  /** The shape has exactly one entry per port key and no others. */
  lemma {:induction false} PortShapeKeys(ports: PortRecord)
    ensures var shape := PortObjectSchema(ports).shape;
      Distinct(Keys(shape)) && forall k :: k in Keys(shape) <==> k in Keys(ports)
  {
    PutAllKeys(ports, PortSchema);
  }

  /** An input object passes the port schema exactly when every port
      accepts the value it holds under the port's key (`undefined` when
      absent). */
  lemma {:induction false} InputsAccepted(ports: PortRecord, fields: map<string, Value>)
    requires Distinct(Keys(ports))
    ensures Parse(PortObjectSchema(ports), Obj(fields)).Success? <==>
      forall i :: 0 <= i < |ports| ==> Parse(PortSchema(ports[i].1), Get(fields, ports[i].0)).Success?
  {
    var shape := PutAll(ports, PortSchema);
    PutAllDistinct(ports, PortSchema);
    ObjectAccepted(shape, fields);
  }

  /** A "many" port that is not optional rejects a missing input, so the
      whole input object is rejected. */
  lemma {:induction false} MissingManyInputRejected(ports: PortRecord, fields: map<string, Value>, i: nat)
    requires Distinct(Keys(ports))
    requires i < |ports| && ports[i].0 !in fields
    requires ports[i].1.multiplicity == Some(Many) && ports[i].1.required != Some(false)
    ensures !Parse(PortObjectSchema(ports), Obj(fields)).Success?
  {
    InputsAccepted(ports, fields);
    PortSchemaSemantics(ports[i].1, Undefined);
  }
}
