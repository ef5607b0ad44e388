/** The edge-connection planner for if/else branch nodes
    (packages/graph/src/branching.ts). `planEdgeConnection` runs a fixed
    chain of guards, each of which throws on a violation, and then computes
    the branch metadata the target node inherits. A thrown error is a
    `Failure`; `null` and `undefined` are both `None`. */
module Branching {
  import opened Wrappers

  datatype BranchKey = If | Else

  /** `BRANCH_KEYS`, as the strings the source stores. */
  function BranchKeyName(k: BranchKey): string {
    match k
    case If => "if"
    case Else => "else"
  }

  datatype NodeSnapshot = NodeSnapshot(
    id: string,
    workflowId: string,
    nodeType: string,
    branchScopeId: Option<string>,
    branchKey: Option<string>)

  datatype EdgeSnapshot = EdgeSnapshot(
    id: Option<string>,
    sourceNodeId: string,
    targetNodeId: string,
    branchKey: Option<string>)

  datatype ConnectionInput = ConnectionInput(
    workflowId: string,
    sourceNode: NodeSnapshot,
    targetNode: NodeSnapshot,
    existingOutgoingEdges: seq<EdgeSnapshot>,
    requestedBranchKey: Option<string>)

  /** The metadata the target node should take over. */
  datatype Assignment = Assignment(scopeId: Option<string>, branchKey: Option<BranchKey>)

  datatype Plan = Plan(edgeBranchKey: Option<BranchKey>, assignment: Assignment)

  datatype BranchError =
    | UnsupportedBranchKey(value: string)
    | DifferentWorkflow
    | SelfReferentialEdge
    | RegularNodeHasEdge
    | MissingBranchKey
    | BranchLimitReached
    | DuplicateBranchKey(key: BranchKey)
    | BranchKeyOnRegularNode
    | EnterBranchFromOutside
    | CrossBranchEdge
    | InconsistentBranchMetadata
    | DifferentBranchLegs

  /** JavaScript truthiness of an optional string: present and non-empty. */
  predicate Truthy(s: Option<string>) {
    s.Some? && s.value != ""
  }

  /** `normalizeBranchKey`: a falsy value is no key, "if" and "else" are
      keys, anything else is rejected. */
  function NormalizeBranchKey(value: Option<string>): (r: Result<Option<BranchKey>, BranchError>)
    ensures r == Success(None) <==> !Truthy(value)
    ensures r.Failure? <==> Truthy(value) && value.value != "if" && value.value != "else"
    ensures r.Failure? ==> r.error == UnsupportedBranchKey(value.value)
    ensures r.Success? && r.value.Some? ==> value == Some(BranchKeyName(r.value.value))
  {
    if !Truthy(value) then Success(None)
    else if value.value == "if" then Success(Some(If))
    else if value.value == "else" then Success(Some(Else))
    else Failure(UnsupportedBranchKey(value.value))
  }

  /** A stored key normalises back to itself. */
  lemma NormalizeBranchKeyName(k: BranchKey)
    ensures NormalizeBranchKey(Some(BranchKeyName(k))) == Success(Some(k))
  {
  }

  predicate IsBranchNodeType(nodeType: string) {
    nodeType == "branch"
  }

  function EnsureSameWorkflow(node: NodeSnapshot, workflowId: string): (r: Outcome<BranchError>)
    ensures r.Pass? <==> node.workflowId == workflowId
    ensures r.Fail? ==> r.error == DifferentWorkflow
  {
    if node.workflowId != workflowId then Fail(DifferentWorkflow) else Pass
  }

  function EnsureRegularNodeHasSingleEdge(node: NodeSnapshot, edges: seq<EdgeSnapshot>): (r: Outcome<BranchError>)
    ensures r.Pass? <==> IsBranchNodeType(node.nodeType) || |edges| == 0
    ensures r.Fail? ==> r.error == RegularNodeHasEdge
  {
    if !IsBranchNodeType(node.nodeType) && |edges| >= 1 then Fail(RegularNodeHasEdge) else Pass
  }

  /** The loop of `ensureBranchNodeLimits` over the existing edges: the first
      edge whose key is unsupported or equal to `key` decides. */
  function CheckExistingKeys(edges: seq<EdgeSnapshot>, key: BranchKey): (r: Outcome<BranchError>)
    decreases |edges|
  {
    if edges == [] then Pass
    else
      match NormalizeBranchKey(edges[0].branchKey)
      case Failure(e) => Fail(e)
      case Success(existing) =>
        if existing == Some(key) then Fail(DuplicateBranchKey(key))
        else CheckExistingKeys(edges[1..], key)
  }

  /** An existing edge's key is supported and differs from `key`. */
  predicate KeyFree(e: EdgeSnapshot, key: BranchKey) {
    NormalizeBranchKey(e.branchKey).Success? && NormalizeBranchKey(e.branchKey).value != Some(key)
  }

  /** No existing edge carries `key`, and every existing key is supported. */
  ghost predicate KeysFree(edges: seq<EdgeSnapshot>, key: BranchKey) {
    forall i :: 0 <= i < |edges| ==> KeyFree(edges[i], key)
  }

  /** The error the edge loop reports for an edge that is not free. */
  function KeyError(e: EdgeSnapshot, key: BranchKey): BranchError {
    if NormalizeBranchKey(e.branchKey).Failure? then NormalizeBranchKey(e.branchKey).error
    else DuplicateBranchKey(key)
  }

  /** The edge loop passes exactly when every existing key is supported and
      none equals `key`; otherwise it reports the error of the first edge
      that is not. */
  lemma {:induction false} CheckExistingKeysSpec(edges: seq<EdgeSnapshot>, key: BranchKey)
    ensures CheckExistingKeys(edges, key).Pass? <==> KeysFree(edges, key)
    ensures CheckExistingKeys(edges, key).Fail? ==>
      exists i :: 0 <= i < |edges| && KeysFree(edges[..i], key) && !KeyFree(edges[i], key)
        && CheckExistingKeys(edges, key).error == KeyError(edges[i], key)
    decreases |edges|
  {
    if edges != [] {
      CheckExistingKeysSpec(edges[1..], key);
      if KeyFree(edges[0], key) {
        assert KeysFree(edges, key) <==> KeysFree(edges[1..], key) by {
          if KeysFree(edges[1..], key) {
            forall i | 0 <= i < |edges| ensures KeyFree(edges[i], key) {
              if i > 0 {
                assert edges[i] == edges[1..][i - 1];
              }
            }
          }
          if KeysFree(edges, key) {
            forall i | 0 <= i < |edges[1..]| ensures KeyFree(edges[1..][i], key) {
              assert edges[1..][i] == edges[i + 1];
            }
          }
        }
        if CheckExistingKeys(edges, key).Fail? {
          var i :| 0 <= i < |edges[1..]| && KeysFree(edges[1..][..i], key) && !KeyFree(edges[1..][i], key)
            && CheckExistingKeys(edges[1..], key).error == KeyError(edges[1..][i], key);
          assert edges[1..][i] == edges[i + 1];
          var prefix := edges[..i + 1];
          assert KeysFree(prefix, key) by {
            forall j | 0 <= j < |prefix| ensures KeyFree(prefix[j], key) {
              if j > 0 {
                assert prefix[j] == edges[1..][..i][j - 1];
              }
            }
          }
        }
      } else {
        assert KeysFree(edges[..0], key);
      }
    }
  }

  /** `ensureBranchNodeLimits`: a branch node has at most two legs, one per
      key. */
  function EnsureBranchNodeLimits(edges: seq<EdgeSnapshot>, key: BranchKey): (r: Outcome<BranchError>)
    ensures |edges| >= 2 ==> r == Fail(BranchLimitReached)
  {
    if |edges| >= 2 then Fail(BranchLimitReached) else CheckExistingKeys(edges, key)
  }

  /** `scopeOf`: a branch node is its own scope; any other node lies in the
      scope it records. */
  function ScopeOf(node: NodeSnapshot): (r: Option<string>)
    ensures IsBranchNodeType(node.nodeType) ==> r == Some(node.id)
    ensures !IsBranchNodeType(node.nodeType) ==> r == node.branchScopeId
  {
    if IsBranchNodeType(node.nodeType) then Some(node.id) else node.branchScopeId
  }

  /** `branchOf`: a branch node's leg is the key of the edge being planned;
      any other node's leg is the key it records. */
  function BranchOf(node: NodeSnapshot, explicit: Option<BranchKey>): (r: Result<Option<BranchKey>, BranchError>)
    ensures IsBranchNodeType(node.nodeType) ==> r == Success(explicit)
    ensures !IsBranchNodeType(node.nodeType) ==> r == NormalizeBranchKey(node.branchKey)
  {
    if IsBranchNodeType(node.nodeType) then Success(explicit) else NormalizeBranchKey(node.branchKey)
  }

  /** A node inside a scope cannot be entered from outside it, and two
      scopes never connect. */
  function EnsureScopeCompatibility(sourceScope: Option<string>, targetScope: Option<string>): (r: Outcome<BranchError>)
    ensures r.Pass? <==> !Truthy(targetScope) || (Truthy(sourceScope) && sourceScope.value == targetScope.value)
    ensures r.Fail? ==> r.error == (if Truthy(sourceScope) then CrossBranchEdge else EnterBranchFromOutside)
  {
    if Truthy(targetScope) && !Truthy(sourceScope) then Fail(EnterBranchFromOutside)
    else if Truthy(sourceScope) && Truthy(targetScope) && sourceScope.value != targetScope.value then Fail(CrossBranchEdge)
    else Pass
  }

  /** The same two rules for branch legs. */
  function EnsureBranchCompatibility(sourceBranch: Option<BranchKey>, targetBranch: Option<BranchKey>): (r: Outcome<BranchError>)
    ensures r.Pass? <==> targetBranch.None? || sourceBranch == targetBranch
    ensures r.Fail? ==> r.error == (if sourceBranch.Some? then DifferentBranchLegs else InconsistentBranchMetadata)
  {
    if targetBranch.Some? && sourceBranch.None? then Fail(InconsistentBranchMetadata)
    else if sourceBranch.Some? && targetBranch.Some? && sourceBranch != targetBranch then Fail(DifferentBranchLegs)
    else Pass
  }

  /** `assignmentForTarget`: copy the source's scope and leg into the target
      only where the source has one and the target has none. */
  function AssignmentForTarget(
    sourceScope: Option<string>, targetScope: Option<string>,
    sourceBranch: Option<BranchKey>, targetBranch: Option<BranchKey>): (r: Assignment)
    ensures r.scopeId.Some? <==> Truthy(sourceScope) && !Truthy(targetScope)
    ensures r.scopeId.Some? ==> r.scopeId == sourceScope
    ensures r.branchKey.Some? <==> sourceBranch.Some? && targetBranch.None?
    ensures r.branchKey.Some? ==> r.branchKey == sourceBranch
  {
    Assignment(
      if Truthy(sourceScope) && !Truthy(targetScope) then sourceScope else None,
      if sourceBranch.Some? && targetBranch.None? then sourceBranch else None)
  }

  /** The branch key checks of `planEdgeConnection`: a branch source needs a
      supported, still free key; any other source must not ask for one. */
  function CheckRequestedKey(input: ConnectionInput): (r: Result<Option<BranchKey>, BranchError>)
    ensures r.Success? ==> (r.value.Some? <==> IsBranchNodeType(input.sourceNode.nodeType))
  {
    if IsBranchNodeType(input.sourceNode.nodeType) then
      var normalized :- NormalizeBranchKey(input.requestedBranchKey);
      if normalized.None? then Failure(MissingBranchKey)
      else
        :- EnsureBranchNodeLimits(input.existingOutgoingEdges, normalized.value);
        Success(normalized)
    else if Truthy(input.requestedBranchKey) then Failure(BranchKeyOnRegularNode)
    else Success(None)
  }

  /** `planEdgeConnection(input)`. */
  function PlanEdgeConnection(input: ConnectionInput): (r: Result<Plan, BranchError>) {
    var source := input.sourceNode;
    var target := input.targetNode;
    :- EnsureSameWorkflow(source, input.workflowId);
    :- EnsureSameWorkflow(target, input.workflowId);
    if source.id == target.id then Failure(SelfReferentialEdge)
    else
      :- EnsureRegularNodeHasSingleEdge(source, input.existingOutgoingEdges);
      var normalizedBranchKey :- CheckRequestedKey(input);
      var sourceScope := ScopeOf(source);
      var sourceBranch :- BranchOf(source, normalizedBranchKey);
      var targetScope := target.branchScopeId;
      var targetBranch :- NormalizeBranchKey(target.branchKey);
      :- EnsureScopeCompatibility(sourceScope, targetScope);
      :- EnsureBranchCompatibility(sourceBranch, targetBranch);
      var assignment := AssignmentForTarget(sourceScope, targetScope, sourceBranch, targetBranch);
      var edgeBranchKey := if IsBranchNodeType(source.nodeType) then normalizedBranchKey else sourceBranch;
      Success(Plan(edgeBranchKey, assignment))
  }

  /** The leg a successful plan gives the new edge's source side. */
  function SourceLeg(input: ConnectionInput): Option<BranchKey>
    requires !IsBranchNodeType(input.sourceNode.nodeType) ==> NormalizeBranchKey(input.sourceNode.branchKey).Success?
    requires IsBranchNodeType(input.sourceNode.nodeType) ==> NormalizeBranchKey(input.requestedBranchKey).Success?
  {
    if IsBranchNodeType(input.sourceNode.nodeType) then NormalizeBranchKey(input.requestedBranchKey).value
    else NormalizeBranchKey(input.sourceNode.branchKey).value
  }

  /** Every rule of `planEdgeConnection`, stated without its order: both
      nodes belong to the workflow, the edge is no self-loop, a branch source
      asks for a supported key that none of its (at most one) existing legs
      uses, any other source has no edge yet and asks for no key, and the
      target's scope and leg agree with the source's. */
  ghost predicate Connectable(input: ConnectionInput) {
    var source := input.sourceNode;
    var target := input.targetNode;
    var edges := input.existingOutgoingEdges;
    source.workflowId == input.workflowId && target.workflowId == input.workflowId
    && source.id != target.id
    && (if IsBranchNodeType(source.nodeType) then
          exists k :: input.requestedBranchKey == Some(BranchKeyName(k)) && |edges| < 2 && KeysFree(edges, k)
        else
          |edges| == 0 && !Truthy(input.requestedBranchKey) && NormalizeBranchKey(source.branchKey).Success?)
    && NormalizeBranchKey(target.branchKey).Success?
    && (Truthy(target.branchScopeId) ==> Truthy(ScopeOf(source)) && ScopeOf(source).value == target.branchScopeId.value)
    && (NormalizeBranchKey(target.branchKey).value.Some? ==> SourceLeg(input) == NormalizeBranchKey(target.branchKey).value)
  }

  /** A plan is produced exactly when every rule holds. */
  lemma PlanSucceedsIff(input: ConnectionInput)
    ensures PlanEdgeConnection(input).Success? <==> Connectable(input)
  {
    var source := input.sourceNode;
    var edges := input.existingOutgoingEdges;
    if IsBranchNodeType(source.nodeType) {
      var n := NormalizeBranchKey(input.requestedBranchKey);
      if n.Success? && n.value.Some? {
        var k := n.value.value;
        CheckExistingKeysSpec(edges, k);
        if Connectable(input) {
          var k' :| input.requestedBranchKey == Some(BranchKeyName(k')) && |edges| < 2 && KeysFree(edges, k');
          NormalizeBranchKeyName(k');
        }
      } else if Connectable(input) {
        var k' :| input.requestedBranchKey == Some(BranchKeyName(k')) && |edges| < 2 && KeysFree(edges, k');
        NormalizeBranchKeyName(k');
      }
    }
  }

  /** The workflow guard comes first: a node of another workflow is
      rejected whatever else is wrong with the edge. */
  lemma PlanRejectsOtherWorkflow(input: ConnectionInput)
    requires input.sourceNode.workflowId != input.workflowId || input.targetNode.workflowId != input.workflowId
    ensures PlanEdgeConnection(input) == Failure(DifferentWorkflow)
  {
  }

  /** Next, an edge from a node to itself is rejected. */
  lemma PlanRejectsSelfLoop(input: ConnectionInput)
    requires input.sourceNode.workflowId == input.workflowId && input.targetNode.workflowId == input.workflowId
    requires input.sourceNode.id == input.targetNode.id
    ensures PlanEdgeConnection(input) == Failure(SelfReferentialEdge)
  {
  }

  /** Next, a regular node that already has an outgoing edge gets no
      second one. */
  lemma PlanRejectsSecondRegularEdge(input: ConnectionInput)
    requires input.sourceNode.workflowId == input.workflowId && input.targetNode.workflowId == input.workflowId
    requires input.sourceNode.id != input.targetNode.id
    requires !IsBranchNodeType(input.sourceNode.nodeType) && |input.existingOutgoingEdges| >= 1
    ensures PlanEdgeConnection(input) == Failure(RegularNodeHasEdge)
  {
  }

  /** Next, a branch source needs a supported key, a free leg and a key no
      existing leg uses; the first existing edge that is unsupported or
      taken names the error. */
  lemma PlanBranchKeyRules(input: ConnectionInput)
    requires input.sourceNode.workflowId == input.workflowId && input.targetNode.workflowId == input.workflowId
    requires input.sourceNode.id != input.targetNode.id
    requires IsBranchNodeType(input.sourceNode.nodeType)
    ensures NormalizeBranchKey(input.requestedBranchKey).Failure? ==>
      PlanEdgeConnection(input) == Failure(UnsupportedBranchKey(input.requestedBranchKey.value))
    ensures !Truthy(input.requestedBranchKey) ==> PlanEdgeConnection(input) == Failure(MissingBranchKey)
    ensures forall k :: input.requestedBranchKey == Some(BranchKeyName(k)) && |input.existingOutgoingEdges| >= 2 ==>
      PlanEdgeConnection(input) == Failure(BranchLimitReached)
    ensures forall k, i ::
      (input.requestedBranchKey == Some(BranchKeyName(k)) && |input.existingOutgoingEdges| < 2
       && 0 <= i < |input.existingOutgoingEdges| && KeysFree(input.existingOutgoingEdges[..i], k)
       && !KeyFree(input.existingOutgoingEdges[i], k)) ==>
      PlanEdgeConnection(input) == Failure(KeyError(input.existingOutgoingEdges[i], k))
  {
    forall k, i | input.requestedBranchKey == Some(BranchKeyName(k)) && |input.existingOutgoingEdges| < 2
      && 0 <= i < |input.existingOutgoingEdges| && KeysFree(input.existingOutgoingEdges[..i], k)
      && !KeyFree(input.existingOutgoingEdges[i], k)
      ensures PlanEdgeConnection(input) == Failure(KeyError(input.existingOutgoingEdges[i], k))
    {
      NormalizeBranchKeyName(k);
      FirstKeyErrorWins(input.existingOutgoingEdges, k, i);
    }
  }

  /** The edge loop stops at its first failing edge. */
  lemma {:induction false} FirstKeyErrorWins(edges: seq<EdgeSnapshot>, key: BranchKey, i: int)
    requires 0 <= i < |edges| && KeysFree(edges[..i], key) && !KeyFree(edges[i], key)
    ensures CheckExistingKeys(edges, key) == Fail(KeyError(edges[i], key))
    decreases i
  {
    if i > 0 {
      assert edges[..i][0] == edges[0];
      var prefix := edges[1..][..i - 1];
      assert KeysFree(prefix, key) by {
        forall j | 0 <= j < |prefix| ensures KeyFree(prefix[j], key) {
          assert prefix[j] == edges[..i][j + 1];
        }
      }
      FirstKeyErrorWins(edges[1..], key, i - 1);
    }
  }

  /** A regular source may not choose a leg for its edge. */
  lemma PlanRejectsKeyOnRegularSource(input: ConnectionInput)
    requires input.sourceNode.workflowId == input.workflowId && input.targetNode.workflowId == input.workflowId
    requires input.sourceNode.id != input.targetNode.id
    requires !IsBranchNodeType(input.sourceNode.nodeType) && input.existingOutgoingEdges == []
    requires Truthy(input.requestedBranchKey)
    ensures PlanEdgeConnection(input) == Failure(BranchKeyOnRegularNode)
  {
  }

  /** The checks after the key checks, in their order: a regular source's
      stored leg must be supported, then the target's; then a scope
      mismatch is reported, and a leg mismatch only when the scopes agree. */
  lemma PlanLateErrors(input: ConnectionInput)
    requires input.sourceNode.workflowId == input.workflowId && input.targetNode.workflowId == input.workflowId
    requires input.sourceNode.id != input.targetNode.id
    requires EnsureRegularNodeHasSingleEdge(input.sourceNode, input.existingOutgoingEdges).Pass?
    requires CheckRequestedKey(input).Success?
    ensures var source := input.sourceNode;
      NormalizeBranchKey(source.branchKey).Failure? && !IsBranchNodeType(source.nodeType) ==>
        PlanEdgeConnection(input) == Failure(UnsupportedBranchKey(source.branchKey.value))
    ensures var source := input.sourceNode;
      var target := input.targetNode;
      (IsBranchNodeType(source.nodeType) || NormalizeBranchKey(source.branchKey).Success?)
      && NormalizeBranchKey(target.branchKey).Failure? ==>
        PlanEdgeConnection(input) == Failure(UnsupportedBranchKey(target.branchKey.value))
    ensures var source := input.sourceNode;
      var target := input.targetNode;
      var sourceScope := ScopeOf(source);
      (IsBranchNodeType(source.nodeType) || NormalizeBranchKey(source.branchKey).Success?)
      && NormalizeBranchKey(target.branchKey).Success?
      && Truthy(target.branchScopeId)
      && !(Truthy(sourceScope) && sourceScope.value == target.branchScopeId.value) ==>
        PlanEdgeConnection(input) == Failure(if Truthy(sourceScope) then CrossBranchEdge else EnterBranchFromOutside)
    ensures var source := input.sourceNode;
      var target := input.targetNode;
      var sourceScope := ScopeOf(source);
      (IsBranchNodeType(source.nodeType) || NormalizeBranchKey(source.branchKey).Success?)
      && NormalizeBranchKey(target.branchKey).Success?
      && (!Truthy(target.branchScopeId) || (Truthy(sourceScope) && sourceScope.value == target.branchScopeId.value))
      && NormalizeBranchKey(target.branchKey).value.Some?
      && BranchOf(source, CheckRequestedKey(input).value).value != NormalizeBranchKey(target.branchKey).value ==>
        PlanEdgeConnection(input) ==
          Failure(if BranchOf(source, CheckRequestedKey(input).value).value.Some? then DifferentBranchLegs
                  else InconsistentBranchMetadata)
  {
  }

  /** What a successful plan says: a branch source's edge carries the
      requested key, any other edge carries its source's leg; the target is
      given the source's scope and leg only where it has none of its own. */
  lemma PlanSuccessMeaning(input: ConnectionInput)
    requires PlanEdgeConnection(input).Success?
    ensures Connectable(input)
    ensures var plan := PlanEdgeConnection(input).value;
      && plan.edgeBranchKey == SourceLeg(input)
      && (IsBranchNodeType(input.sourceNode.nodeType) ==>
            plan.edgeBranchKey.Some? && input.requestedBranchKey == Some(BranchKeyName(plan.edgeBranchKey.value)))
      && (plan.assignment.scopeId.Some? <==> Truthy(ScopeOf(input.sourceNode)) && !Truthy(input.targetNode.branchScopeId))
      && (plan.assignment.scopeId.Some? ==> plan.assignment.scopeId == ScopeOf(input.sourceNode))
      && (plan.assignment.branchKey.Some? <==> SourceLeg(input).Some? && NormalizeBranchKey(input.targetNode.branchKey).value.None?)
      && (plan.assignment.branchKey.Some? ==> plan.assignment.branchKey == SourceLeg(input))
  {
    PlanSucceedsIff(input);
  }

  /** The target after the assignment has been written into it. */
  function Assign(target: NodeSnapshot, a: Assignment): (r: NodeSnapshot)
    ensures r.id == target.id && r.workflowId == target.workflowId && r.nodeType == target.nodeType
  {
    target.(
      branchScopeId := if a.scopeId.Some? then a.scopeId else target.branchScopeId,
      branchKey := if a.branchKey.Some? then Some(BranchKeyName(a.branchKey.value)) else target.branchKey)
  }

  /** Once the plan's assignment is written into the target, the target
      sits in the source's scope and leg: planning the same edge again
      assigns nothing more, and the new edge's leg is the target's leg. */
  lemma PlanAssignmentSettles(input: ConnectionInput)
    requires PlanEdgeConnection(input).Success?
    ensures var plan := PlanEdgeConnection(input).value;
      var target' := Assign(input.targetNode, plan.assignment);
      && NormalizeBranchKey(target'.branchKey).Success?
      && EnsureScopeCompatibility(ScopeOf(input.sourceNode), target'.branchScopeId) == Pass
      && EnsureBranchCompatibility(SourceLeg(input), NormalizeBranchKey(target'.branchKey).value) == Pass
      && AssignmentForTarget(ScopeOf(input.sourceNode), target'.branchScopeId,
           SourceLeg(input), NormalizeBranchKey(target'.branchKey).value) == Assignment(None, None)
      && (plan.edgeBranchKey.Some? ==> NormalizeBranchKey(target'.branchKey).value == plan.edgeBranchKey)
  {
    PlanSuccessMeaning(input);
    var plan := PlanEdgeConnection(input).value;
    if plan.assignment.branchKey.Some? {
      NormalizeBranchKeyName(plan.assignment.branchKey.value);
    }
  }
}
