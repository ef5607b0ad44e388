/** The node types the web editor can place on its canvas, and how it
    reads a node's stored parameters back through the node's own schema
    (apps/web/src/lib/nodes/definitions.ts). */
module WebDefinitions {
  import opened Wrappers
  import opened JsValues
  import opened Entries
  import opened Schemas
  import opened Manifest
  import HttpGetNode
  import SwitchNode

  /** The entries of `registeredNodeDefinitions`. A property read returns
      a reference to one of them, named here by its entry. */
  datatype RegisteredNode = HttpNode | SwitchNodeEntry

  /** The definition an entry refers to. */
  function DefinitionOf(node: RegisteredNode): NodeDefinition {
    match node
    case HttpNode => HttpGetNode.HttpGetDefinition()
    case SwitchNodeEntry => SwitchNode.SwitchDefinition()
  }

  /** `registeredNodeDefinitions`: the editor's node type names with the
      entries they stand for, in declaration order. */
  function RegisteredNodeDefinitions(): seq<(string, RegisteredNode)> {
    [("http", HttpNode), ("switch", SwitchNodeEntry)]
  }

  /** The property names an object literal inherits from `Object.prototype`. */
  const ObjectPrototypeKeys: seq<string> :=
    [ "constructor", "hasOwnProperty", "isPrototypeOf", "propertyIsEnumerable",
      "toLocaleString", "toString", "valueOf", "__proto__",
      "__defineGetter__", "__defineSetter__", "__lookupGetter__", "__lookupSetter__" ]

  /** `Object.hasOwn(registeredNodeDefinitions, type)`. */
  predicate IsRegisteredNodeType(nodeType: string) {
    nodeType in Keys(RegisteredNodeDefinitions())
  }

  /** Exactly the two own keys are registered types. */
  lemma RegisteredTypes(nodeType: string)
    ensures IsRegisteredNodeType(nodeType) <==> nodeType == "http" || nodeType == "switch"
  {
    assert Keys(RegisteredNodeDefinitions()) == ["http", "switch"];
  }

  /** What the property read `registeredNodeDefinitions[type]` yields: a
      registered definition, a member of `Object.prototype` (not a
      definition), or `undefined`. */
  datatype PropertyRead = OwnProperty(node: RegisteredNode) | InheritedProperty(name: string) | Absent

  /** `getNodeDefinition(type)`: a plain property read, so own keys win and
      prototype names are found as well. */
  function GetNodeDefinition(nodeType: string): (r: PropertyRead)
    ensures r.OwnProperty? <==> IsRegisteredNodeType(nodeType)
    ensures r.InheritedProperty? <==> !IsRegisteredNodeType(nodeType) && nodeType in ObjectPrototypeKeys
    ensures r.OwnProperty? ==> Lookup(RegisteredNodeDefinitions(), nodeType) == Some(r.node)
  {
    match Lookup(RegisteredNodeDefinitions(), nodeType)
    case Some(node) => OwnProperty(node)
    case None => if nodeType in ObjectPrototypeKeys then InheritedProperty(nodeType) else Absent
  }

  /** "http" reads the HTTP GET node and "switch" the switch node; the
      type name is not the manifest id ("http" is registered, its manifest
      id "http-get" is not). */
  lemma RegisteredDefinitions()
    ensures GetNodeDefinition("http") == OwnProperty(HttpNode)
    ensures GetNodeDefinition("switch") == OwnProperty(SwitchNodeEntry)
    ensures !IsRegisteredNodeType("http-get") && GetNodeDefinition("http-get") == Absent
  {
    RegisteredTypes("http-get");
  }

  /** The manifest ids of the two entries. */
  lemma RegisteredManifestIds()
    ensures DefinitionOf(HttpNode).manifest.id == "http-get"
    ensures DefinitionOf(SwitchNodeEntry).manifest.id == "switch"
  {
    HttpGetNode.HttpDefinitionParts();
    SwitchNode.SwitchDefinitionParts();
  }

  /** A name such as "toString" is not a registered type, yet the property
      read finds the inherited member: `isRegisteredNodeType` is the guard
      to use before `getNodeDefinition`. */
  lemma InheritedNameNotRegistered()
    ensures !IsRegisteredNodeType("toString")
    ensures GetNodeDefinition("toString") == InheritedProperty("toString")
  {
    RegisteredTypes("toString");
    assert ObjectPrototypeKeys[5] == "toString";
  }

  /** The parameter schema of a registered entry, written out. */
  function ParameterSchemaOf(node: RegisteredNode): (s: Schema)
    ensures s.ObjectS?
  {
    match node
    case HttpNode => HttpGetNode.HttpParameterSchema()
    case SwitchNodeEntry => SwitchNode.SwitchParameterSchema()
  }

  /** It is the schema `defineNode` derived for that node. */
  lemma ParameterSchemaOfDefinition(node: RegisteredNode)
    ensures ParameterSchemaOf(node) == DefinitionOf(node).parameterSchema
  {
    HttpGetNode.HttpDefinitionParts();
    SwitchNode.SwitchDefinitionParts();
  }

  /** The entry a registered type name reads. */
  function RegisteredEntry(nodeType: string): (node: RegisteredNode)
    requires IsRegisteredNodeType(nodeType)
    ensures GetNodeDefinition(nodeType) == OwnProperty(node)
  {
    Lookup(RegisteredNodeDefinitions(), nodeType).value
  }

  /** `hydrateNodeParameters(type, parameters)`: `parameters ?? {}` is
      parsed by the type's parameter schema; a rejected value gives `{}`
      instead of an error. */
  function HydrateNodeParameters(nodeType: string, parameters: Value): (r: Value)
    requires IsRegisteredNodeType(nodeType)
    ensures r.Obj?
  {
    ObjectResult(ParameterSchemaOf(RegisteredEntry(nodeType)).shape, Coalesce(parameters, Obj(map[])));
    var parsed := Parse(ParameterSchemaOf(RegisteredEntry(nodeType)), Coalesce(parameters, Obj(map[])));
    if parsed.Success? then parsed.value else Obj(map[])
  }

  /** Hydration never fails: it yields the parsed parameters, defaults
      applied, when the schema accepts them and `{}` otherwise; `null` and
      `undefined` hydrate as `{}` does. */
  lemma HydrateSpec(nodeType: string, parameters: Value)
    requires IsRegisteredNodeType(nodeType)
    ensures var parsed := Parse(ParameterSchemaOf(RegisteredEntry(nodeType)), Coalesce(parameters, Obj(map[])));
      && (parsed.Success? ==> HydrateNodeParameters(nodeType, parameters) == parsed.value)
      && (parsed.Failure? ==> HydrateNodeParameters(nodeType, parameters) == Obj(map[]))
    ensures parameters == Undefined || parameters == Null ==>
      HydrateNodeParameters(nodeType, parameters) == HydrateNodeParameters(nodeType, Obj(map[]))
  {
  }

  /** A switch node without stored parameters hydrates to `{}`: its `path`
      parameter has no default. */
  lemma HydrateSwitchEmpty(parameters: Value)
    requires parameters == Undefined || parameters == Null || parameters == Obj(map[])
    ensures HydrateNodeParameters("switch", parameters) == Obj(map[])
  {
    RegisteredTypes("switch");
    assert RegisteredEntry("switch") == SwitchNodeEntry;
    SwitchNode.SwitchParametersAccepted(map[]);
  }

  /** An HTTP node without stored parameters hydrates to the declared
      defaults: `{method: "GET", url: <the example URL>}`. */
  lemma HydrateHttpEmpty(parameters: Value)
    requires parameters == Undefined || parameters == Null || parameters == Obj(map[])
    ensures HydrateNodeParameters("http", parameters)
      == Obj(map["method" := Str("GET"), "url" := Str(HttpGetNode.DefaultUrl)])
  {
    RegisteredTypes("http");
    assert RegisteredEntry("http") == HttpNode;
    HttpGetNode.HttpDefaults();
  }

  /** A stored HTTP `method` outside the five methods makes the whole value
      hydrate to `{}`, discarding the other stored fields as well. */
  lemma HydrateHttpRejected(fields: map<string, Value>)
    requires Get(fields, "method") != Undefined
    requires !(Get(fields, "method").Str? && Get(fields, "method").s in HttpGetNode.MethodNames)
    ensures HydrateNodeParameters("http", Obj(fields)) == Obj(map[])
  {
    RegisteredTypes("http");
    assert RegisteredEntry("http") == HttpNode;
    HttpGetNode.HttpParametersAccepted(fields);
  }
}
