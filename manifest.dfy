/** A node's manifest and the definition `defineNode` assembles from it
    (packages/nodes/src/core/manifest.ts). */
module Manifest {
  import opened Wrappers
  import opened JsValues
  import opened Entries
  import opened Schemas
  import opened Parameters
  import opened Ports

  datatype NodeKind = SourceKind | TransformKind | SinkKind

  datatype NodeManifest = NodeManifest(
    id: string,
    version: string,
    displayName: string,
    description: Option<string>,
    kind: Option<NodeKind>,
    categories: Option<seq<string>>,
    icon: Option<string>)

  datatype NodeDefinition = NodeDefinition(
    manifest: NodeManifest,
    parameters: ParameterDefinitions,
    ports: PortsDefinition,
    parameterSchema: Schema,
    inputSchema: Schema)

  /** `defineNode({manifest, parameters, ports})`: the three inputs are kept
      as given, the parameter schema is derived from the parameters and the
      input schema from the input ports. */
  function DefineNode(manifest: NodeManifest, parameters: ParameterDefinitions, ports: PortsDefinition): (r: NodeDefinition)
    ensures r.manifest == manifest && r.parameters == parameters && r.ports == ports
    ensures r.parameterSchema == ParameterObjectSchema(parameters)
    ensures r.inputSchema == PortObjectSchema(ports.inputs)
  {
    NodeDefinition(manifest, parameters, ports, ParameterObjectSchema(parameters), PortObjectSchema(ports.inputs))
  }

  /** A definition whose schemas are the ones `defineNode` derives. */
  ghost predicate Derived(definition: NodeDefinition) {
    definition.parameterSchema == ParameterObjectSchema(definition.parameters)
    && definition.inputSchema == PortObjectSchema(definition.ports.inputs)
  }

  /** Every definition `defineNode` returns is derived, and a derived
      definition is what `defineNode` returns for its own parts. */
  lemma DefineNodeDerived(manifest: NodeManifest, parameters: ParameterDefinitions, ports: PortsDefinition, definition: NodeDefinition)
    ensures Derived(DefineNode(manifest, parameters, ports))
    ensures Derived(definition) <==> definition == DefineNode(definition.manifest, definition.parameters, definition.ports)
  {
  }

  /** The output ports never reach the input schema: two port sets with
      the same inputs give the same input schema. */
  lemma InputSchemaIgnoresOutputs(manifest: NodeManifest, parameters: ParameterDefinitions, inputs: PortRecord, outputs1: PortRecord, outputs2: PortRecord)
    ensures DefineNode(manifest, parameters, PortsDefinition(inputs, outputs1)).inputSchema
         == DefineNode(manifest, parameters, PortsDefinition(inputs, outputs2)).inputSchema
  {
  }

  /** The derived schemas have one field per parameter and one per input
      port, and no others. */
  lemma {:induction false} DefinedShapes(manifest: NodeManifest, parameters: ParameterDefinitions, ports: PortsDefinition)
    ensures var definition := DefineNode(manifest, parameters, ports);
      && definition.parameterSchema.ObjectS?
      && definition.inputSchema.ObjectS?
      && (forall k :: k in Keys(definition.parameterSchema.shape) <==> k in Keys(parameters))
      && (forall k :: k in Keys(definition.inputSchema.shape) <==> k in Keys(ports.inputs))
  {
    ParameterShapeKeys(parameters);
    PortShapeKeys(ports.inputs);
  }
}
