/** `createNodeExecutor` (packages/nodes/src/server/executor.ts): parse the
    parameters and inputs, run the handler with an `emit` callback, and
    return what was emitted. A handler is a function from its context to
    the emissions it makes, in order, and whether it then throws; a thrown
    `emit` ends the handler, which does not catch it. */
module Executor {
  import opened Wrappers
  import opened JsValues
  import opened Entries
  import opened Schemas
  import opened Parameters
  import opened Ports
  import opened Manifest

  datatype ExecutionError =
    | InvalidParameters(parameterIssue: ParseError)
    | InvalidInputs(inputIssue: ParseError)
    | UnknownOutputPort(portId: string, nodeId: string)
    | InvalidPayload(payloadPort: string, payloadIssue: ParseError)
    | HandlerFailed(message: string)

  datatype Emission = Emission(portId: string, payload: Value)

  /** What the handler receives (`ctx`, `definition`, `parameters`,
      `inputs`; `emit` is the executor's). */
  datatype HandlerContext = HandlerContext(ctx: Value, definition: NodeDefinition, parameters: Value, inputs: Value)

  /** The emissions a handler makes, in order, and the error it throws
      after them, if any. */
  datatype HandlerRun = HandlerRun(emissions: seq<Emission>, thrown: Option<string>)

  type Handler = HandlerContext -> HandlerRun

  /** One `emit(portId, payload)` on the object emitted so far. */
  function EmitStep(outputs: PortRecord, nodeId: string, emitted: seq<(string, Value)>, e: Emission): Result<seq<(string, Value)>, ExecutionError> {
    match Lookup(outputs, e.portId)
    case None => Failure(UnknownOutputPort(e.portId, nodeId))
    case Some(port) =>
      match Parse(PayloadSchema(port), e.payload)
      case Failure(issue) => Failure(InvalidPayload(e.portId, issue))
      case Success(validated) => Success(Put(emitted, e.portId, validated))
  }

  /** The emissions applied in order; the first that throws ends the run. */
  function EmitAll(outputs: PortRecord, nodeId: string, emitted: seq<(string, Value)>, emissions: seq<Emission>): Result<seq<(string, Value)>, ExecutionError>
    decreases |emissions|
  {
    if emissions == [] then Success(emitted)
    else
      var next :- EmitStep(outputs, nodeId, emitted, emissions[0]);
      EmitAll(outputs, nodeId, next, emissions[1..])
  }

  /** The promise an execution settles to: the emitted object, or the
      error it rejects with. */
  function ExecutionResult(definition: NodeDefinition, handler: Handler, ctx: Value, parameters: Value, inputs: Value): Result<seq<(string, Value)>, ExecutionError> {
    match Parse(definition.parameterSchema, Coalesce(parameters, Obj(map[])))
    case Failure(issue) => Failure(InvalidParameters(issue))
    case Success(safeParameters) =>
      match Parse(definition.inputSchema, Coalesce(inputs, Obj(map[])))
      case Failure(issue) => Failure(InvalidInputs(issue))
      case Success(safeInputs) =>
        var run := handler(HandlerContext(ctx, definition, safeParameters, safeInputs));
        var emitted :- EmitAll(definition.ports.outputs, definition.manifest.id, [], run.emissions);
        if run.thrown.Some? then Failure(HandlerFailed(run.thrown.value)) else Success(emitted)
  }

  /** An emission `emit` accepts: its port is declared and the payload
      passes the port's payload schema. */
  predicate ValidEmission(outputs: PortRecord, e: Emission) {
    Lookup(outputs, e.portId).Some? && Parse(PayloadSchema(Lookup(outputs, e.portId).value), e.payload).Success?
  }

  /** The value an accepted emission stores. */
  function Validated(outputs: PortRecord, e: Emission): Value
    requires ValidEmission(outputs, e)
  {
    Parse(PayloadSchema(Lookup(outputs, e.portId).value), e.payload).value
  }

  /** The error a rejected emission throws. */
  function EmissionError(outputs: PortRecord, nodeId: string, e: Emission): ExecutionError
    requires !ValidEmission(outputs, e)
  {
    if Lookup(outputs, e.portId).None? then UnknownOutputPort(e.portId, nodeId)
    else InvalidPayload(e.portId, Parse(PayloadSchema(Lookup(outputs, e.portId).value), e.payload).error)
  }

  /** `emit` throws "Unknown output port" for an undeclared port, throws
      the schema's issue for a rejected payload, and otherwise stores the
      validated value under the port id, replacing an earlier one. */
  lemma EmitStepSpec(outputs: PortRecord, nodeId: string, emitted: seq<(string, Value)>, e: Emission)
    ensures Lookup(outputs, e.portId).None? ==> EmitStep(outputs, nodeId, emitted, e) == Failure(UnknownOutputPort(e.portId, nodeId))
    ensures EmitStep(outputs, nodeId, emitted, e).Success? <==> ValidEmission(outputs, e)
    ensures !ValidEmission(outputs, e) ==> EmitStep(outputs, nodeId, emitted, e) == Failure(EmissionError(outputs, nodeId, e))
    ensures ValidEmission(outputs, e) ==> EmitStep(outputs, nodeId, emitted, e) == Success(Put(emitted, e.portId, Validated(outputs, e)))
  {
  }

  /** The index of the last emission on `portId`. */
  function LastEmission(emissions: seq<Emission>, portId: string): (r: Option<nat>)
    ensures r.Some? ==>
      && r.value < |emissions| && emissions[r.value].portId == portId
      && (forall m :: r.value < m < |emissions| ==> emissions[m].portId != portId)
    ensures r.None? ==> forall m :: 0 <= m < |emissions| ==> emissions[m].portId != portId
    decreases |emissions|
  {
    if emissions == [] then None
    else
      match LastEmission(emissions[1..], portId)
      case Some(j) => Some(j + 1)
      case None => if emissions[0].portId == portId then Some(0) else None
  }

  /** The emissions succeed exactly when each one is accepted, and the first
      rejected emission decides the error. */
  lemma {:induction false} EmitAllOutcome(outputs: PortRecord, nodeId: string, emitted: seq<(string, Value)>, emissions: seq<Emission>)
    ensures EmitAll(outputs, nodeId, emitted, emissions).Success? <==>
      forall j :: 0 <= j < |emissions| ==> ValidEmission(outputs, emissions[j])
    ensures forall j ::
      (0 <= j < |emissions| && !ValidEmission(outputs, emissions[j])
       && (forall m :: 0 <= m < j ==> ValidEmission(outputs, emissions[m]))) ==>
      EmitAll(outputs, nodeId, emitted, emissions) == Failure(EmissionError(outputs, nodeId, emissions[j]))
    decreases |emissions|
  {
    if emissions != [] {
      var e := emissions[0];
      var tail := emissions[1..];
      EmitStepSpec(outputs, nodeId, emitted, e);
      if ValidEmission(outputs, e) {
        var next := Put(emitted, e.portId, Validated(outputs, e));
        EmitAllOutcome(outputs, nodeId, next, tail);
        assert forall j :: 1 <= j < |emissions| ==> emissions[j] == tail[j - 1];
        forall j | 0 <= j < |emissions| && !ValidEmission(outputs, emissions[j])
            && (forall m :: 0 <= m < j ==> ValidEmission(outputs, emissions[m]))
          ensures EmitAll(outputs, nodeId, emitted, emissions) == Failure(EmissionError(outputs, nodeId, emissions[j]))
        {
          assert j > 0;
          assert forall m :: 0 <= m < j - 1 ==> ValidEmission(outputs, tail[m]) by {
            forall m | 0 <= m < j - 1 ensures ValidEmission(outputs, tail[m]) {
              assert tail[m] == emissions[m + 1];
            }
          }
        }
        if forall j :: 0 <= j < |emissions| ==> ValidEmission(outputs, emissions[j]) {
          assert forall j :: 0 <= j < |tail| ==> ValidEmission(outputs, tail[j]) by {
            forall j | 0 <= j < |tail| ensures ValidEmission(outputs, tail[j]) {
              assert tail[j] == emissions[j + 1];
            }
          }
        } else {
          var j :| 0 <= j < |emissions| && !ValidEmission(outputs, emissions[j]);
          assert !ValidEmission(outputs, tail[j - 1]);
        }
      }
    }
  }

  /** After accepted emissions the object holds the ports it held before
      and the emitted ones, each once; an emitted port reads as the value of
      its last emission and every other key is unchanged. */
  lemma {:induction false} EmitAllOutput(outputs: PortRecord, nodeId: string, emitted: seq<(string, Value)>, emissions: seq<Emission>)
    requires Distinct(Keys(emitted))
    requires forall j :: 0 <= j < |emissions| ==> ValidEmission(outputs, emissions[j])
    ensures EmitAll(outputs, nodeId, emitted, emissions).Success?
    ensures var result := EmitAll(outputs, nodeId, emitted, emissions).value;
      && Distinct(Keys(result))
      && (forall k :: k in Keys(result) <==> k in Keys(emitted) || LastEmission(emissions, k).Some?)
      && (forall k :: Lookup(result, k) ==
            match LastEmission(emissions, k)
            case Some(j) => Some(Validated(outputs, emissions[j]))
            case None => Lookup(emitted, k))
    decreases |emissions|
  {
    EmitAllOutcome(outputs, nodeId, emitted, emissions);
    if emissions != [] {
      var e := emissions[0];
      var tail := emissions[1..];
      EmitStepSpec(outputs, nodeId, emitted, e);
      var next := Put(emitted, e.portId, Validated(outputs, e));
      assert forall j :: 0 <= j < |tail| ==> tail[j] == emissions[j + 1];
      PutLookup(emitted, e.portId, Validated(outputs, e), e.portId);
      EmitAllOutput(outputs, nodeId, next, tail);
      var result := EmitAll(outputs, nodeId, emitted, emissions).value;
      assert result == EmitAll(outputs, nodeId, next, tail).value;
      forall k
        ensures k in Keys(result) <==> k in Keys(emitted) || LastEmission(emissions, k).Some?
        ensures Lookup(result, k) ==
            match LastEmission(emissions, k)
            case Some(j) => Some(Validated(outputs, emissions[j]))
            case None => Lookup(emitted, k)
      {
        PutLookup(emitted, e.portId, Validated(outputs, e), k);
        if LastEmission(tail, k).Some? {
          var j := LastEmission(tail, k).value;
          assert LastEmission(emissions, k) == Some(j + 1);
        }
      }
    }
  }

  /** The entries accepted emissions store when each keeps its payload. */
  function Stored(emissions: seq<Emission>): (r: seq<(string, Value)>)
    ensures |r| == |emissions|
    ensures forall j :: 0 <= j < |emissions| ==> r[j] == (emissions[j].portId, emissions[j].payload)
  {
    seq(|emissions|, j requires 0 <= j < |emissions| => (emissions[j].portId, emissions[j].payload))
  }

  /** Moving the first emission's entry into the object keeps the whole
      list, and so its keys stay distinct with the new key absent before. */
  lemma StoredFirst(emitted: seq<(string, Value)>, emissions: seq<Emission>)
    requires emissions != [] && Distinct(Keys(emitted + Stored(emissions)))
    ensures emissions[0].portId !in Keys(emitted)
    ensures emitted + Stored(emissions) == emitted + [(emissions[0].portId, emissions[0].payload)] + Stored(emissions[1..])
  {
    var e := emissions[0];
    var all := emitted + Stored(emissions);
    var next := emitted + [(e.portId, e.payload)];
    assert all[|emitted|] == (e.portId, e.payload);
    forall j | 0 <= j < |emitted|
      ensures Keys(emitted)[j] != e.portId
    {
      assert Keys(all)[j] == Keys(emitted)[j] && Keys(all)[|emitted|] == e.portId;
    }
    assert |next + Stored(emissions[1..])| == |all|;
    forall j | 0 <= j < |all|
      ensures (next + Stored(emissions[1..]))[j] == all[j]
    {
      if j > |emitted| {
        assert Stored(emissions[1..])[j - |emitted| - 1] == Stored(emissions)[j - |emitted|];
      }
    }
  }

  /** Emissions on distinct ports not yet in the object, each accepted with
      its payload unchanged, append their entries in emission order. */
  lemma {:induction false} EmitAllFresh(outputs: PortRecord, nodeId: string, emitted: seq<(string, Value)>, emissions: seq<Emission>)
    requires Distinct(Keys(emitted + Stored(emissions)))
    requires forall j :: 0 <= j < |emissions| ==>
      ValidEmission(outputs, emissions[j]) && Validated(outputs, emissions[j]) == emissions[j].payload
    ensures EmitAll(outputs, nodeId, emitted, emissions) == Success(emitted + Stored(emissions))
    decreases |emissions|
  {
    if emissions == [] {
      assert emitted + Stored(emissions) == emitted;
    } else {
      var e := emissions[0];
      EmitStepSpec(outputs, nodeId, emitted, e);
      StoredFirst(emitted, emissions);
      PutNew(emitted, e.portId, e.payload);
      var next := emitted + [(e.portId, e.payload)];
      assert EmitStep(outputs, nodeId, emitted, e) == Success(next);
      EmitAllFresh(outputs, nodeId, next, emissions[1..]);
    }
  }

  /** Three accepted emissions on distinct ports, each stored as emitted,
      make an object listing the three in emission order. */
  lemma EmitThree(outputs: PortRecord, nodeId: string, e0: Emission, e1: Emission, e2: Emission)
    requires e0.portId != e1.portId && e0.portId != e2.portId && e1.portId != e2.portId
    requires ValidEmission(outputs, e0) && Validated(outputs, e0) == e0.payload
    requires ValidEmission(outputs, e1) && Validated(outputs, e1) == e1.payload
    requires ValidEmission(outputs, e2) && Validated(outputs, e2) == e2.payload
    ensures EmitAll(outputs, nodeId, [], [e0, e1, e2])
      == Success([(e0.portId, e0.payload), (e1.portId, e1.payload), (e2.portId, e2.payload)])
  {
    var emissions := [e0, e1, e2];
    var stored := [(e0.portId, e0.payload), (e1.portId, e1.payload), (e2.portId, e2.payload)];
    assert Stored(emissions) == stored;
    assert [] + Stored(emissions) == stored;
    assert Keys(stored) == [e0.portId, e1.portId, e2.portId];
    EmitAllFresh(outputs, nodeId, [], emissions);
  }

  /** The handler's run, once parameters and inputs are accepted. */
  function RunOf(definition: NodeDefinition, handler: Handler, ctx: Value, parameters: Value, inputs: Value): HandlerRun
    requires Parse(definition.parameterSchema, Coalesce(parameters, Obj(map[]))).Success?
    requires Parse(definition.inputSchema, Coalesce(inputs, Obj(map[]))).Success?
  {
    handler(HandlerContext(ctx, definition,
      Parse(definition.parameterSchema, Coalesce(parameters, Obj(map[]))).value,
      Parse(definition.inputSchema, Coalesce(inputs, Obj(map[]))).value))
  }

  /** Accepted parameters and inputs, accepted emissions and a handler
      that returns give the emitted object. */
  lemma ExecutionSucceeds(definition: NodeDefinition, handler: Handler, ctx: Value, parameters: Value, inputs: Value, result: seq<(string, Value)>)
    requires Parse(definition.parameterSchema, Coalesce(parameters, Obj(map[]))).Success?
    requires Parse(definition.inputSchema, Coalesce(inputs, Obj(map[]))).Success?
    requires RunOf(definition, handler, ctx, parameters, inputs).thrown.None?
    requires EmitAll(definition.ports.outputs, definition.manifest.id, [], RunOf(definition, handler, ctx, parameters, inputs).emissions) == Success(result)
    ensures ExecutionResult(definition, handler, ctx, parameters, inputs) == Success(result)
  {
  }

  /** Parameters, then inputs, are checked before the handler runs: a
      rejected one fails the execution with its issue whatever the handler
      would do. */
  lemma ChecksBeforeHandler(definition: NodeDefinition, handler1: Handler, handler2: Handler, ctx: Value, parameters: Value, inputs: Value)
    ensures var safeParameters := Parse(definition.parameterSchema, Coalesce(parameters, Obj(map[])));
      safeParameters.Failure? ==>
        ExecutionResult(definition, handler1, ctx, parameters, inputs) == Failure(InvalidParameters(safeParameters.error))
    ensures var safeInputs := Parse(definition.inputSchema, Coalesce(inputs, Obj(map[])));
      Parse(definition.parameterSchema, Coalesce(parameters, Obj(map[]))).Success? && safeInputs.Failure? ==>
        ExecutionResult(definition, handler1, ctx, parameters, inputs) == Failure(InvalidInputs(safeInputs.error))
    ensures (Parse(definition.parameterSchema, Coalesce(parameters, Obj(map[]))).Failure?
          || Parse(definition.inputSchema, Coalesce(inputs, Obj(map[]))).Failure?) ==>
      ExecutionResult(definition, handler1, ctx, parameters, inputs) == ExecutionResult(definition, handler2, ctx, parameters, inputs)
  {
  }

  /** Once parameters and inputs are accepted, the execution succeeds
      exactly when every emission is accepted and the handler does not
      throw; it then returns exactly the ports emitted, each once, each with
      the validated value of its last emission, all of them declared
      outputs. The first rejected emission decides the error, and a handler
      that emits nothing and returns yields `{}`. */
  lemma {:induction false} ExecutionOutput(definition: NodeDefinition, handler: Handler, ctx: Value, parameters: Value, inputs: Value)
    requires Parse(definition.parameterSchema, Coalesce(parameters, Obj(map[]))).Success?
    requires Parse(definition.inputSchema, Coalesce(inputs, Obj(map[]))).Success?
    ensures var run := RunOf(definition, handler, ctx, parameters, inputs);
      var outputs := definition.ports.outputs;
      var r := ExecutionResult(definition, handler, ctx, parameters, inputs);
      && (r.Success? <==> (forall j :: 0 <= j < |run.emissions| ==> ValidEmission(outputs, run.emissions[j])) && run.thrown.None?)
      && (forall j ::
            (0 <= j < |run.emissions| && !ValidEmission(outputs, run.emissions[j])
             && (forall m :: 0 <= m < j ==> ValidEmission(outputs, run.emissions[m]))) ==>
            r == Failure(EmissionError(outputs, definition.manifest.id, run.emissions[j])))
      && ((forall j :: 0 <= j < |run.emissions| ==> ValidEmission(outputs, run.emissions[j])) && run.thrown.Some? ==>
            r == Failure(HandlerFailed(run.thrown.value)))
      && (run.emissions == [] && run.thrown.None? ==> r == Success([]))
      && (r.Success? ==>
            && Distinct(Keys(r.value))
            && (forall k :: k in Keys(r.value) <==> LastEmission(run.emissions, k).Some?)
            && (forall k :: k in Keys(r.value) ==> k in Keys(outputs))
            && (forall k :: LastEmission(run.emissions, k).Some? ==>
                  Lookup(r.value, k) == Some(Validated(outputs, run.emissions[LastEmission(run.emissions, k).value]))))
  {
    var run := RunOf(definition, handler, ctx, parameters, inputs);
    var outputs := definition.ports.outputs;
    EmitAllOutcome(outputs, definition.manifest.id, [], run.emissions);
    if forall j :: 0 <= j < |run.emissions| ==> ValidEmission(outputs, run.emissions[j]) {
      EmitAllOutput(outputs, definition.manifest.id, [], run.emissions);
      var result := EmitAll(outputs, definition.manifest.id, [], run.emissions).value;
      forall k | k in Keys(result) ensures k in Keys(outputs) {
        var j := LastEmission(run.emissions, k).value;
        assert ValidEmission(outputs, run.emissions[j]);
      }
    }
  }

  /** Called without parameters, a node built by `defineNode` runs with
      every parameter's default: the parameters are accepted exactly when
      each parameter accepts a missing value, and each parameter with a
      default then holds it. */
  lemma {:induction false} MissingParametersDefaulted(definition: NodeDefinition, parameters: Value)
    requires Derived(definition) && Distinct(Keys(definition.parameters))
    requires parameters == Undefined || parameters == Null
    ensures var safeParameters := Parse(definition.parameterSchema, Coalesce(parameters, Obj(map[])));
      && (safeParameters.Success? <==>
            forall i :: 0 <= i < |definition.parameters| ==> Parse(ParameterSchema(definition.parameters[i].1), Undefined).Success?)
      && (safeParameters.Success? ==>
            && safeParameters.value.Obj?
            && forall i :: 0 <= i < |definition.parameters| && definition.parameters[i].1.defaultValue != Undefined ==>
                 var key := definition.parameters[i].0;
                 key in safeParameters.value.fields && safeParameters.value.fields[key] == definition.parameters[i].1.defaultValue)
  {
    MissingParametersAccepted(definition.parameters);
    if Parse(ParameterObjectSchema(definition.parameters), Obj(map[])).Success? {
      MissingParametersTakeDefaults(definition.parameters);
    }
  }

  /** The `emit` closure with the `emitted` object it writes into. */
  class Emitter {
    const outputs: PortRecord
    const nodeId: string
    var emitted: seq<(string, Value)>

    constructor(outputs: PortRecord, nodeId: string)
      ensures this.outputs == outputs && this.nodeId == nodeId && emitted == []
    {
      this.outputs := outputs;
      this.nodeId := nodeId;
      emitted := [];
    }

    /** `emit(portId, payload)`: an unknown port throws, so does a payload
        the port's schema rejects; otherwise the validated value is stored
        under the port id. A thrown `emit` leaves `emitted` as it was. */
    method Emit(portId: string, payload: Value) returns (r: Outcome<ExecutionError>)
      modifies this
      ensures match EmitStep(outputs, nodeId, old(emitted), Emission(portId, payload))
        case Success(next) => r.Pass? && emitted == next
        case Failure(error) => r == Fail(error) && emitted == old(emitted)
    {
      var portDefinition := Lookup(outputs, portId);
      if portDefinition.None? {
        return Fail(UnknownOutputPort(portId, nodeId));
      }
      var port := portDefinition.value;
      var multiplicity := port.multiplicity.GetOr(Single);
      var schema := if multiplicity == Many then ArrayS(port.schema) else port.schema;
      var validated := Parse(schema, payload);
      if validated.Failure? {
        return Fail(InvalidPayload(portId, validated.error));
      }
      emitted := Put(emitted, portId, validated.value);
      return Pass;
    }

    /** The handler's `emit` calls, in order; the first that throws ends
        the run and its error is the outcome. */
    method EmitEach(emissions: seq<Emission>) returns (r: Outcome<ExecutionError>)
      modifies this
      ensures match EmitAll(outputs, nodeId, old(emitted), emissions)
        case Success(all) => r.Pass? && emitted == all
        case Failure(error) => r == Fail(error)
    {
      var i := 0;
      while i < |emissions|
        invariant 0 <= i <= |emissions|
        invariant EmitAll(outputs, nodeId, emitted, emissions[i..]) == EmitAll(outputs, nodeId, old(emitted), emissions)
      {
        var outcome := Emit(emissions[i].portId, emissions[i].payload);
        if outcome.Fail? {
          return outcome;
        }
        assert emissions[i..][1..] == emissions[i + 1..];
        i := i + 1;
      }
      return Pass;
    }
  }

  /** The executor `createNodeExecutor({definition, handler})` returns,
      called with `{ctx, parameters, inputs}`. */
  method Execute(definition: NodeDefinition, handler: Handler, ctx: Value, parameters: Value, inputs: Value)
    returns (r: Result<seq<(string, Value)>, ExecutionError>)
    ensures r == ExecutionResult(definition, handler, ctx, parameters, inputs)
  {
    var safeParameters := Parse(definition.parameterSchema, Coalesce(parameters, Obj(map[])));
    if safeParameters.Failure? {
      return Failure(InvalidParameters(safeParameters.error));
    }
    var safeInputs := Parse(definition.inputSchema, Coalesce(inputs, Obj(map[])));
    if safeInputs.Failure? {
      return Failure(InvalidInputs(safeInputs.error));
    }
    var emitter := new Emitter(definition.ports.outputs, definition.manifest.id);
    var run := handler(HandlerContext(ctx, definition, safeParameters.value, safeInputs.value));
    var outcome := emitter.EmitEach(run.emissions);
    if outcome.Fail? {
      return Failure(outcome.error);
    }
    if run.thrown.Some? {
      return Failure(HandlerFailed(run.thrown.value));
    }
    r := Success(emitter.emitted);
  }
}
