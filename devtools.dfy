/** The definition checker (packages/nodes/src/devtools/index.ts): each
    validator pushes its diagnostics onto one shared list, in the order id,
    version, parameter keys, input port keys, output port keys. */
module Devtools {
  import opened JsText
  import opened JsValues
  import opened Parameters
  import opened Ports
  import opened Manifest

  datatype Severity = ErrorSeverity | WarningSeverity

  datatype Diagnostic = Diagnostic(severity: Severity, message: string)

  /** `/^[a-z0-9-]+$/`. */
  predicate IsKebabId(id: string) {
    |id| > 0 && forall i :: 0 <= i < |id| ==> 'a' <= id[i] <= 'z' || IsDigit(id[i]) || id[i] == '-'
  }

  /** `/^\d+\.\d+\.\d+$/`: three non-empty runs of digits joined by dots. */
  predicate IsLaxVersion(version: string) {
    var parts := Split(version, '.');
    |parts| == 3 && forall i :: 0 <= i < 3 ==> |parts[i]| > 0 && AllDigits(parts[i])
  }

  /** A normal version number as item 2 of Semantic Versioning 2.0.0 defines
      it: three non-negative integers joined by dots, none with a leading
      zero. */
  predicate IsSemVerCore(version: string) {
    var parts := Split(version, '.');
    |parts| == 3 && forall i :: 0 <= i < 3 ==> |parts[i]| > 0 && AllDigits(parts[i]) && (|parts[i]| == 1 || parts[i][0] != '0')
  }

  function IdDiagnostics(definition: NodeDefinition): seq<Diagnostic> {
    var id := definition.manifest.id;
    if IsKebabId(id) then []
    else [Diagnostic(ErrorSeverity, "Node id \"" + id + "\" must be lowercase kebab-case")]
  }

  function VersionDiagnostics(definition: NodeDefinition): seq<Diagnostic> {
    if IsLaxVersion(definition.manifest.version) then []
    else [Diagnostic(WarningSeverity, "Node " + definition.manifest.id + " version should follow SemVer (x.y.z)")]
  }

  /** The error for one entry whose key differs from its `id`; `owner` is
      "Parameter", "Input port" or "Output port". */
  function KeyError(owner: string, key: string, id: string): Diagnostic {
    Diagnostic(ErrorSeverity, owner + " key \"" + key + "\" must match its id \"" + id + "\"")
  }

  /** One error per entry whose key differs from its `id`, in entry order. */
  function KeyMismatches<T>(entries: seq<(string, T)>, idOf: T -> string, owner: string): seq<Diagnostic>
    decreases |entries|
  {
    if entries == [] then []
    else
      var last := entries[|entries| - 1];
      KeyMismatches(entries[..|entries| - 1], idOf, owner)
        + (if idOf(last.1) != last.0 then [KeyError(owner, last.0, idOf(last.1))] else [])
  }

  function ParameterId(parameter: ParameterDefinition): string { parameter.id }

  function PortId(port: PortDefinition): string { port.id }

  function KeyDiagnostics(definition: NodeDefinition): seq<Diagnostic> {
    KeyMismatches(definition.parameters, ParameterId, "Parameter")
    + KeyMismatches(definition.ports.inputs, PortId, "Input port")
    + KeyMismatches(definition.ports.outputs, PortId, "Output port")
  }

  /** What `validateNodeDefinition` returns. */
  function Diagnose(definition: NodeDefinition): seq<Diagnostic> {
    IdDiagnostics(definition) + VersionDiagnostics(definition) + KeyDiagnostics(definition)
  }

  /** The shared `diagnostics` array. */
  class DiagnosticList {
    var items: seq<Diagnostic>

    constructor()
      ensures items == []
    {
      items := [];
    }

    method Push(d: Diagnostic)
      modifies this
      ensures items == old(items) + [d]
    {
      items := items + [d];
    }
  }

  method ValidateId(definition: NodeDefinition, diagnostics: DiagnosticList)
    modifies diagnostics
    ensures diagnostics.items == old(diagnostics.items) + IdDiagnostics(definition)
  {
    if !IsKebabId(definition.manifest.id) {
      diagnostics.Push(Diagnostic(ErrorSeverity, "Node id \"" + definition.manifest.id + "\" must be lowercase kebab-case"));
    }
  }

  method ValidateVersion(definition: NodeDefinition, diagnostics: DiagnosticList)
    modifies diagnostics
    ensures diagnostics.items == old(diagnostics.items) + VersionDiagnostics(definition)
  {
    if !IsLaxVersion(definition.manifest.version) {
      diagnostics.Push(Diagnostic(WarningSeverity, "Node " + definition.manifest.id + " version should follow SemVer (x.y.z)"));
    }
  }

  /** One loop of `validateKeys` over a record's entries. */
  method ValidateEntries<T>(entries: seq<(string, T)>, idOf: T -> string, owner: string, diagnostics: DiagnosticList)
    modifies diagnostics
    ensures diagnostics.items == old(diagnostics.items) + KeyMismatches(entries, idOf, owner)
  {
    for i := 0 to |entries|
      invariant diagnostics.items == old(diagnostics.items) + KeyMismatches(entries[..i], idOf, owner)
    {
      var key := entries[i].0;
      var item := entries[i].1;
      assert entries[..i + 1][..i] == entries[..i];
      if idOf(item) != key {
        diagnostics.Push(KeyError(owner, key, idOf(item)));
      }
    }
    assert entries[..|entries|] == entries;
  }

  method ValidateKeys(definition: NodeDefinition, diagnostics: DiagnosticList)
    modifies diagnostics
    ensures diagnostics.items == old(diagnostics.items) + KeyDiagnostics(definition)
  {
    ValidateEntries(definition.parameters, ParameterId, "Parameter", diagnostics);
    ValidateEntries(definition.ports.inputs, PortId, "Input port", diagnostics);
    ValidateEntries(definition.ports.outputs, PortId, "Output port", diagnostics);
  }

  /** `validateNodeDefinition(definition)`. */
  method ValidateNodeDefinition(definition: NodeDefinition) returns (diagnostics: seq<Diagnostic>)
    ensures diagnostics == Diagnose(definition)
  {
    var list := new DiagnosticList();
    ValidateId(definition, list);
    ValidateVersion(definition, list);
    ValidateKeys(definition, list);
    diagnostics := list.items;
  }

  /** Every entry's key equals its `id`. */
  ghost predicate KeysMatch<T>(entries: seq<(string, T)>, idOf: T -> string) {
    forall i :: 0 <= i < |entries| ==> idOf(entries[i].1) == entries[i].0
  }

  /** The number of entries whose key differs from their `id`. */
  function MismatchCount<T>(entries: seq<(string, T)>, idOf: T -> string): nat
    decreases |entries|
  {
    if entries == [] then 0
    else
      var last := entries[|entries| - 1];
      MismatchCount(entries[..|entries| - 1], idOf) + (if idOf(last.1) != last.0 then 1 else 0)
  }

  /** The number of diagnostics of a severity. */
  function CountOf(diagnostics: seq<Diagnostic>, severity: Severity): nat
    decreases |diagnostics|
  {
    if diagnostics == [] then 0
    else CountOf(diagnostics[..|diagnostics| - 1], severity) + (if diagnostics[|diagnostics| - 1].severity == severity then 1 else 0)
  }

  lemma {:induction false} CountOfAppend(a: seq<Diagnostic>, b: seq<Diagnostic>, severity: Severity)
    ensures CountOf(a + b, severity) == CountOf(a, severity) + CountOf(b, severity)
    decreases |b|
  {
    if b != [] {
      assert (a + b)[..|a + b| - 1] == a + b[..|b| - 1];
      assert (a + b)[|a + b| - 1] == b[|b| - 1];
      CountOfAppend(a, b[..|b| - 1], severity);
    } else {
      assert a + b == a;
    }
  }

  lemma CountOfSingle(d: Diagnostic, severity: Severity)
    ensures CountOf([d], severity) == if d.severity == severity then 1 else 0
  {
    assert [d][..0] == [];
  }

  /** The key check yields exactly one error per mismatched entry, no
      warning, and nothing when every key matches its id. */
  lemma {:induction false} KeyMismatchesSpec<T>(entries: seq<(string, T)>, idOf: T -> string, owner: string)
    ensures CountOf(KeyMismatches(entries, idOf, owner), ErrorSeverity) == MismatchCount(entries, idOf)
    ensures CountOf(KeyMismatches(entries, idOf, owner), WarningSeverity) == 0
    ensures KeyMismatches(entries, idOf, owner) == [] <==> KeysMatch(entries, idOf)
    decreases |entries|
  {
    if entries != [] {
      var init := entries[..|entries| - 1];
      var last := entries[|entries| - 1];
      KeyMismatchesSpec(init, idOf, owner);
      var tailDiagnostics := if idOf(last.1) != last.0 then [KeyError(owner, last.0, idOf(last.1))] else [];
      CountOfAppend(KeyMismatches(init, idOf, owner), tailDiagnostics, ErrorSeverity);
      CountOfAppend(KeyMismatches(init, idOf, owner), tailDiagnostics, WarningSeverity);
      CountOfSingle(KeyError(owner, last.0, idOf(last.1)), ErrorSeverity);
      CountOfSingle(KeyError(owner, last.0, idOf(last.1)), WarningSeverity);
      if KeysMatch(entries, idOf) {
        assert KeysMatch(init, idOf) by {
          forall i | 0 <= i < |init| ensures idOf(init[i].1) == init[i].0 {
            assert init[i] == entries[i];
          }
        }
      } else if KeysMatch(init, idOf) {
        assert forall j :: 0 <= j < |init| ==> init[j] == entries[j];
      }
    }
  }

  /** A definition yields no diagnostics exactly when its id is kebab-case,
      its version has the x.y.z form and every parameter and port key equals
      its id. */
  lemma DiagnoseEmpty(definition: NodeDefinition)
    ensures Diagnose(definition) == [] <==>
      && IsKebabId(definition.manifest.id)
      && IsLaxVersion(definition.manifest.version)
      && KeysMatch(definition.parameters, ParameterId)
      && KeysMatch(definition.ports.inputs, PortId)
      && KeysMatch(definition.ports.outputs, PortId)
  {
    KeyMismatchesSpec(definition.parameters, ParameterId, "Parameter");
    KeyMismatchesSpec(definition.ports.inputs, PortId, "Input port");
    KeyMismatchesSpec(definition.ports.outputs, PortId, "Output port");
  }

  /** A bad id is one error, a bad version one warning (never an error), and
      every mismatched key one error. */
  lemma DiagnoseCounts(definition: NodeDefinition)
    ensures CountOf(Diagnose(definition), ErrorSeverity) ==
      (if IsKebabId(definition.manifest.id) then 0 else 1)
      + MismatchCount(definition.parameters, ParameterId)
      + MismatchCount(definition.ports.inputs, PortId)
      + MismatchCount(definition.ports.outputs, PortId)
    ensures CountOf(Diagnose(definition), WarningSeverity) == if IsLaxVersion(definition.manifest.version) then 0 else 1
  {
    var params := KeyMismatches(definition.parameters, ParameterId, "Parameter");
    var inputs := KeyMismatches(definition.ports.inputs, PortId, "Input port");
    var outputs := KeyMismatches(definition.ports.outputs, PortId, "Output port");
    KeyMismatchesSpec(definition.parameters, ParameterId, "Parameter");
    KeyMismatchesSpec(definition.ports.inputs, PortId, "Input port");
    KeyMismatchesSpec(definition.ports.outputs, PortId, "Output port");
    var id := IdDiagnostics(definition);
    var version := VersionDiagnostics(definition);
    assert Diagnose(definition) == id + version + (params + inputs + outputs);
    CountOfFive(id, version, params, inputs, outputs, ErrorSeverity);
    CountOfFive(id, version, params, inputs, outputs, WarningSeverity);
    HeaderCounts(definition);
  }

  /** Counting over five lists one after the other. */
  lemma CountOfFive(a: seq<Diagnostic>, b: seq<Diagnostic>, c: seq<Diagnostic>, d: seq<Diagnostic>, e: seq<Diagnostic>, severity: Severity)
    ensures CountOf(a + b + (c + d + e), severity)
      == CountOf(a, severity) + CountOf(b, severity) + CountOf(c, severity) + CountOf(d, severity) + CountOf(e, severity)
  {
    CountOfAppend(a + b, c + d + e, severity);
    CountOfAppend(a, b, severity);
    CountOfAppend(c + d, e, severity);
    CountOfAppend(c, d, severity);
  }

  /** The id check gives at most one error and the version check at most
      one warning. */
  lemma HeaderCounts(definition: NodeDefinition)
    ensures CountOf(IdDiagnostics(definition), ErrorSeverity) == if IsKebabId(definition.manifest.id) then 0 else 1
    ensures CountOf(IdDiagnostics(definition), WarningSeverity) == 0
    ensures CountOf(VersionDiagnostics(definition), ErrorSeverity) == 0
    ensures CountOf(VersionDiagnostics(definition), WarningSeverity) == if IsLaxVersion(definition.manifest.version) then 0 else 1
  {
    var id := IdDiagnostics(definition);
    var version := VersionDiagnostics(definition);
    if id != [] {
      CountOfSingle(id[0], ErrorSeverity);
      CountOfSingle(id[0], WarningSeverity);
    }
    if version != [] {
      CountOfSingle(version[0], ErrorSeverity);
      CountOfSingle(version[0], WarningSeverity);
    }
  }

  /** The version check accepts "01.2.3", which item 2 of Semantic
      Versioning 2.0.0 rules out for its leading zero; every normal version
      number passes the check. */
  lemma LeadingZeroVersionAccepted(version: string)
    ensures IsLaxVersion("01.2.3") && !IsSemVerCore("01.2.3")
    ensures IsSemVerCore(version) ==> IsLaxVersion(version)
  {
    SplitNoSeparator("01", '.');
    SplitNoSeparator("2", '.');
    SplitNoSeparator("3", '.');
    assert "2.3" == "2" + ['.'] + "3";
    SplitAppend("2", "3", '.');
    assert "01.2.3" == "01" + ['.'] + "2.3";
    SplitAppend("01", "2.3", '.');
    var parts := Split("01.2.3", '.');
    assert parts == ["01", "2", "3"];
    assert "01"[0] == '0' && "01"[1] == '1' && "2"[0] == '2' && "3"[0] == '3';
    assert AllDigits(parts[0]) && AllDigits(parts[1]) && AllDigits(parts[2]);
  }
}
