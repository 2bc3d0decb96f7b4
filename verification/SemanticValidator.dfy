/** packages/workflow/src/semantic-validator.ts: the one-pass semantic check and the report built from it. */
module SemanticValidator {
  import opened Prelude
  import opened WorkflowModel

  datatype Severity = Error | Warning | Info

  /** An issue, one constructor for every code the pass reports, with what its path and message mention. */
  datatype WorkflowIssue =
    | SchemaInvalid(instancePath: string, text: string)
    | DuplicateStepId(stepId: string)
    | ApprovalRequired(stepId: string)
    | UnknownModule(stepId: string, moduleCode: string)
    | ModuleRequiresApproval(stepId: string, moduleCode: string)
    | UnexpectedInput(stepId: string, key: string, moduleCode: string)
    | MissingInput(stepId: string, key: string, value: string)
    | UnexpectedOutput(stepId: string, key: string, moduleCode: string)
    | MissingFrom(from: string)
    | MissingTo(to: string)
    | NotProduced(ref: string)
  {
    function Severity(): Severity {
      if UnexpectedInput? || UnexpectedOutput? then Warning else Error
    }
  }

  datatype ValidationReport = ValidationReport(
    valid: bool,
    blockingErrors: seq<WorkflowIssue>,
    warnings: seq<WorkflowIssue>,
    infos: seq<WorkflowIssue>)

  type Registry = map<string, ModuleContract>

  const INPUT_PREFIX := "$inputs."
  const OUTPUT_PREFIX := "$outputs."

  // ----- What is wrong with a workflow, position by position -----

  const CodeOf := (m: ModuleContract) => m.code

  /** The binding registry: a later contract with the same code replaces an earlier one. */
  function BuildRegistry(modules: seq<ModuleContract>): Registry {
    ByKey(modules, CodeOf)
  }

  predicate IdSeenBefore(steps: seq<Step>, i: nat)
    requires i < |steps|
  {
    exists j :: 0 <= j < i && steps[j].stepId == steps[i].stepId
  }

  predicate DeclaredInput(w: Workflow, ref: string) {
    exists k :: 0 <= k < |w.inputs| && INPUT_PREFIX + w.inputs[k] == ref
  }

  predicate Produces(step: Step, ref: string) {
    exists k :: 0 <= k < |step.outputBindings| && step.outputBindings[k].value == ref
  }

  /** `ref` is a declared input, or an output of one of the first `n` steps whose module is registered. */
  predicate Available(w: Workflow, registry: Registry, n: nat, ref: string)
    requires n <= |w.steps|
  {
    DeclaredInput(w, ref) ||
    exists j :: 0 <= j < n && w.steps[j].moduleCode in registry && Produces(w.steps[j], ref)
  }

  function When(condition: bool, issue: WorkflowIssue): seq<WorkflowIssue> {
    if condition then [issue] else []
  }

  predicate MissesInput(w: Workflow, registry: Registry, i: nat, b: Binding)
    requires i < |w.steps|
  {
    INPUT_PREFIX <= b.value && !Available(w, registry, i, b.value)
  }

  /** Issues of the first `n` input bindings of step `i`. */
  function InputIssues(w: Workflow, registry: Registry, m: ModuleContract, i: nat, n: nat): seq<WorkflowIssue>
    requires i < |w.steps| && n <= |w.steps[i].inputBindings|
  {
    if n == 0 then []
    else
      var step := w.steps[i];
      var b := step.inputBindings[n - 1];
      InputIssues(w, registry, m, i, n - 1)
      + When(b.key !in m.inputBindings, UnexpectedInput(step.stepId, b.key, step.moduleCode))
      + When(MissesInput(w, registry, i, b), MissingInput(step.stepId, b.key, b.value))
  }

  /** Issues of the first `n` output bindings of a step. */
  function OutputIssues(step: Step, m: ModuleContract, n: nat): seq<WorkflowIssue>
    requires n <= |step.outputBindings|
  {
    if n == 0 then []
    else
      var b := step.outputBindings[n - 1];
      OutputIssues(step, m, n - 1)
      + When(b.key !in m.outputBindings, UnexpectedOutput(step.stepId, b.key, step.moduleCode))
  }

  function ModuleIssues(w: Workflow, registry: Registry, i: nat): seq<WorkflowIssue>
    requires i < |w.steps| && w.steps[i].moduleCode in registry
  {
    var step := w.steps[i];
    var m := registry[step.moduleCode];
    When(m.requiresApproval && !step.requiresApproval, ModuleRequiresApproval(step.stepId, step.moduleCode))
    + InputIssues(w, registry, m, i, |step.inputBindings|)
    + OutputIssues(step, m, |step.outputBindings|)
  }

  function StepIssues(w: Workflow, registry: Registry, i: nat): seq<WorkflowIssue>
    requires i < |w.steps|
  {
    var step := w.steps[i];
    When(IdSeenBefore(w.steps, i), DuplicateStepId(step.stepId))
    + When(step.kind == Deliver && !step.requiresApproval, ApprovalRequired(step.stepId))
    + (if step.moduleCode !in registry then [UnknownModule(step.stepId, step.moduleCode)]
       else
         ModuleIssues(w, registry, i))
  }

  /** Issues of the first `n` steps. */
  function StepsIssues(w: Workflow, registry: Registry, n: nat): seq<WorkflowIssue>
    requires n <= |w.steps|
  {
    if n == 0 then [] else StepsIssues(w, registry, n - 1) + StepIssues(w, registry, n - 1)
  }

  predicate IsStepId(steps: seq<Step>, id: string) {
    exists j :: 0 <= j < |steps| && steps[j].stepId == id
  }

  /** Issues of the first `n` transitions. */
  function TransitionIssues(w: Workflow, n: nat): seq<WorkflowIssue>
    requires n <= |w.transitions|
  {
    if n == 0 then []
    else
      var t := w.transitions[n - 1];
      TransitionIssues(w, n - 1)
      + When(!IsStepId(w.steps, t.from), MissingFrom(t.from))
      + When(!IsStepId(w.steps, t.to), MissingTo(t.to))
  }

  /** The references of the first `n` outputs without repetitions, as a JavaScript Set enumerates them. */
  function OutputRefs(w: Workflow, n: nat): seq<string>
    requires n <= |w.outputs|
  {
    if n == 0 then []
    else
      var refs := OutputRefs(w, n - 1);
      var ref := OUTPUT_PREFIX + w.outputs[n - 1];
      if ref in refs then refs else refs + [ref]
  }

  function ProductionIssues(w: Workflow, registry: Registry, refs: seq<string>): seq<WorkflowIssue> {
    if refs == [] then []
    else
      var ref := refs[|refs| - 1];
      ProductionIssues(w, registry, refs[..|refs| - 1])
      + When(!Available(w, registry, |w.steps|, ref), NotProduced(ref))
  }

  /** Every issue of a workflow, in reporting order. */
  function SemanticIssues(w: Workflow, registry: Registry): seq<WorkflowIssue> {
    StepsIssues(w, registry, |w.steps|)
    + TransitionIssues(w, |w.transitions|)
    + ProductionIssues(w, registry, OutputRefs(w, |w.outputs|))
  }

  // ----- The one-pass check -----

  /** The references the pass knows after the first `n` steps. */
  ghost predicate KnowsOutputs(w: Workflow, registry: Registry, n: nat, known: set<string>)
    requires n <= |w.steps|
  {
    forall ref :: ref in known <==> Available(w, registry, n, ref)
  }

  method CheckInputBindings(w: Workflow, registry: Registry, m: ModuleContract, i: nat, known: set<string>)
    returns (issues: seq<WorkflowIssue>)
    requires i < |w.steps| && KnowsOutputs(w, registry, i, known)
    ensures issues == InputIssues(w, registry, m, i, |w.steps[i].inputBindings|)
  {
    issues := [];
    var step := w.steps[i];
    for k := 0 to |step.inputBindings|
      invariant issues == InputIssues(w, registry, m, i, k)
    {
      var b := step.inputBindings[k];
      if b.key !in m.inputBindings {
        issues := issues + [UnexpectedInput(step.stepId, b.key, step.moduleCode)];
      }
      if INPUT_PREFIX <= b.value && b.value !in known {
        issues := issues + [MissingInput(step.stepId, b.key, b.value)];
      }
    }
  }

  method CheckOutputBindings(step: Step, m: ModuleContract, known: set<string>)
    returns (issues: seq<WorkflowIssue>, known': set<string>)
    ensures issues == OutputIssues(step, m, |step.outputBindings|)
    ensures forall ref :: ref in known' <==> ref in known || Produces(step, ref)
  {
    issues, known' := [], known;
    for k := 0 to |step.outputBindings|
      invariant issues == OutputIssues(step, m, k)
      invariant forall ref :: ref in known' <==>
                  ref in known || exists j :: 0 <= j < k && step.outputBindings[j].value == ref
    {
      var b := step.outputBindings[k];
      if b.key !in m.outputBindings {
        issues := issues + [UnexpectedOutput(step.stepId, b.key, step.moduleCode)];
      }
      known' := known' + {b.value};
    }
  }

  /** What is checked once the step's module is known. */
  method CheckModule(w: Workflow, registry: Registry, i: nat, known: set<string>)
    returns (issues: seq<WorkflowIssue>, known': set<string>)
    requires i < |w.steps| && w.steps[i].moduleCode in registry && KnowsOutputs(w, registry, i, known)
    ensures issues == ModuleIssues(w, registry, i)
    ensures forall ref :: ref in known' <==> ref in known || Produces(w.steps[i], ref)
  {
    var step := w.steps[i];
    var m := registry[step.moduleCode];
    issues := [];
    if m.requiresApproval && !step.requiresApproval {
      issues := issues + [ModuleRequiresApproval(step.stepId, step.moduleCode)];
    }
    var inputIssues := CheckInputBindings(w, registry, m, i, known);
    var outputIssues;
    outputIssues, known' := CheckOutputBindings(step, m, known);
    issues := issues + inputIssues + outputIssues;
  }

  /** The body of the loop over steps, for step `i`. */
  method CheckStep(w: Workflow, registry: Registry, i: nat, knownStepIds: set<string>, known: set<string>)
    returns (issues: seq<WorkflowIssue>, known': set<string>)
    requires i < |w.steps| && KnowsOutputs(w, registry, i, known)
    requires w.steps[i].stepId in knownStepIds <==> IdSeenBefore(w.steps, i)
    ensures issues == StepIssues(w, registry, i)
    ensures KnowsOutputs(w, registry, i + 1, known')
  {
    var step := w.steps[i];
    var duplicate, delivery, rest := [], [], [UnknownModule(step.stepId, step.moduleCode)];
    if step.stepId in knownStepIds {
      duplicate := [DuplicateStepId(step.stepId)];
    }
    if step.kind == Deliver && !step.requiresApproval {
      delivery := [ApprovalRequired(step.stepId)];
    }
    known' := known;
    if step.moduleCode !in registry {
      KnownStays(w, registry, i, known);
    } else {
      rest, known' := CheckModule(w, registry, i, known);
      KnownGrows(w, registry, i, known, known');
    }
    issues := duplicate + delivery + rest;
  }

  method CheckTransitions(w: Workflow, knownStepIds: set<string>) returns (issues: seq<WorkflowIssue>)
    requires forall id :: id in knownStepIds <==> IsStepId(w.steps, id)
    ensures issues == TransitionIssues(w, |w.transitions|)
  {
    issues := [];
    for i := 0 to |w.transitions|
      invariant issues == TransitionIssues(w, i)
    {
      var t := w.transitions[i];
      if t.from !in knownStepIds {
        issues := issues + [MissingFrom(t.from)];
      }
      if t.to !in knownStepIds {
        issues := issues + [MissingTo(t.to)];
      }
    }
  }

  method CheckOutputs(w: Workflow, registry: Registry, known: set<string>) returns (issues: seq<WorkflowIssue>)
    requires KnowsOutputs(w, registry, |w.steps|, known)
    ensures issues == ProductionIssues(w, registry, OutputRefs(w, |w.outputs|))
  {
    issues := [];
    var refs := OutputRefs(w, |w.outputs|);
    for i := 0 to |refs|
      invariant issues == ProductionIssues(w, registry, refs[..i])
    {
      assert refs[..i + 1][..i] == refs[..i];
      if refs[i] !in known {
        issues := issues + [NotProduced(refs[i])];
      }
    }
    assert refs[..|refs|] == refs;
  }

  method CollectSemanticIssues(w: Workflow, modules: seq<ModuleContract>) returns (issues: seq<WorkflowIssue>)
    ensures issues == SemanticIssues(w, BuildRegistry(modules))
  {
    issues := [];
    var registry := BuildRegistry(modules);
    var knownStepIds: set<string> := {};
    var knownOutputs := set k | 0 <= k < |w.inputs| :: INPUT_PREFIX + w.inputs[k];
    for i := 0 to |w.steps|
      invariant issues == StepsIssues(w, registry, i)
      invariant forall id :: id in knownStepIds <==> exists j :: 0 <= j < i && w.steps[j].stepId == id
      invariant KnowsOutputs(w, registry, i, knownOutputs)
    {
      var found;
      found, knownOutputs := CheckStep(w, registry, i, knownStepIds, knownOutputs);
      knownStepIds := knownStepIds + {w.steps[i].stepId};
      issues := issues + found;
    }
    var dangling := CheckTransitions(w, knownStepIds);
    var unproduced := CheckOutputs(w, registry, knownOutputs);
    issues := issues + dangling + unproduced;
  }

  lemma KnownStays(w: Workflow, registry: Registry, i: nat, known: set<string>)
    requires i < |w.steps| && w.steps[i].moduleCode !in registry
    requires KnowsOutputs(w, registry, i, known)
    ensures KnowsOutputs(w, registry, i + 1, known)
  {
  }

  lemma KnownGrows(w: Workflow, registry: Registry, i: nat, known: set<string>, known': set<string>)
    requires i < |w.steps| && w.steps[i].moduleCode in registry
    requires KnowsOutputs(w, registry, i, known)
    requires forall ref :: ref in known' <==> ref in known || Produces(w.steps[i], ref)
    ensures KnowsOutputs(w, registry, i + 1, known')
  {
  }

  // ----- The report -----

  function WithSeverity(issues: seq<WorkflowIssue>, severity: Severity): seq<WorkflowIssue> {
    if issues == [] then []
    else
      var last := issues[|issues| - 1];
      WithSeverity(issues[..|issues| - 1], severity) + When(last.Severity() == severity, last)
  }

  predicate HasError(issues: seq<WorkflowIssue>) {
    exists k :: 0 <= k < |issues| && issues[k].Severity() == Error
  }

  /** `schemaIssues` is what the JSON schema validator returned for the candidate. */
  function CreateReport(schemaIssues: seq<WorkflowIssue>, w: Workflow, modules: seq<ModuleContract>): ValidationReport {
    if schemaIssues != [] then ValidationReport(false, schemaIssues, [], [])
    else
      var issues := SemanticIssues(w, BuildRegistry(modules));
      ValidationReport(!HasError(issues), WithSeverity(issues, Error), WithSeverity(issues, Warning),
                       WithSeverity(issues, Info))
  }

  // ----- What validity means -----

  /** The last contract registered under `code`, if any. */
  ghost predicate Registered(modules: seq<ModuleContract>, code: string, m: ModuleContract) {
    LastWith(modules, CodeOf, code, m)
  }

  /** The value of some output binding of the step. */
  ghost predicate Outputs(step: Step, ref: string) {
    exists k :: 0 <= k < |step.outputBindings| && step.outputBindings[k].value == ref
  }

  ghost predicate StepSound(w: Workflow, modules: seq<ModuleContract>, i: nat)
    requires i < |w.steps|
  {
    var step := w.steps[i];
    && (forall j :: 0 <= j < i ==> w.steps[j].stepId != step.stepId)
    && (step.kind == Deliver ==> step.requiresApproval)
    && (exists m :: Registered(modules, step.moduleCode, m) && (m.requiresApproval ==> step.requiresApproval))
    && (forall k :: 0 <= k < |step.inputBindings| && "$inputs." <= step.inputBindings[k].value ==>
          || (exists j :: 0 <= j < |w.inputs| && "$inputs." + w.inputs[j] == step.inputBindings[k].value)
          || exists j :: 0 <= j < i && Outputs(w.steps[j], step.inputBindings[k].value))
  }

  ghost predicate Produced(w: Workflow, ref: string) {
    exists j :: 0 <= j < |w.steps| && Outputs(w.steps[j], ref)
  }

  ghost predicate StepsSound(w: Workflow, modules: seq<ModuleContract>) {
    forall i :: 0 <= i < |w.steps| ==> StepSound(w, modules, i)
  }

  ghost predicate TransitionsSound(w: Workflow) {
    forall i :: 0 <= i < |w.transitions| ==>
      IsStepId(w.steps, w.transitions[i].from) && IsStepId(w.steps, w.transitions[i].to)
  }

  ghost predicate OutputsProduced(w: Workflow) {
    forall i :: 0 <= i < |w.outputs| ==> Produced(w, "$outputs." + w.outputs[i])
  }

  /** The requirements of a runnable workflow, stated without any accumulated state. */
  ghost predicate Sound(w: Workflow, modules: seq<ModuleContract>) {
    StepsSound(w, modules) && TransitionsSound(w) && OutputsProduced(w)
  }

  lemma RegistryHoldsLast(modules: seq<ModuleContract>, code: string, m: ModuleContract)
    ensures Registered(modules, code, m) <==> code in BuildRegistry(modules) && BuildRegistry(modules)[code] == m
  {
    ByKeyIsLast(modules, CodeOf, code, m);
  }

  // ----- Exactly which issues are reported, in which order -----

  /** The checks that the pass makes. */
  datatype Check =
    | DuplicateCheck(step: nat)
    | DeliveryCheck(step: nat)
    | ModuleCheck(step: nat)
    | ModuleApprovalCheck(step: nat)
    | InputKeyCheck(step: nat, binding: nat)
    | InputValueCheck(step: nat, binding: nat)
    | OutputKeyCheck(step: nat, binding: nat)
    | FromCheck(transition: nat)
    | ToCheck(transition: nat)
    | ProductionCheck(output: nat)

  function InputChecks(i: nat, n: nat): seq<Check> {
    if n == 0 then [] else InputChecks(i, n - 1) + [InputKeyCheck(i, n - 1), InputValueCheck(i, n - 1)]
  }

  function OutputChecks(i: nat, n: nat): seq<Check> {
    if n == 0 then [] else OutputChecks(i, n - 1) + [OutputKeyCheck(i, n - 1)]
  }

  /** The checks behind the test whether the module is known. */
  function ModuleChecks(w: Workflow, i: nat): seq<Check>
    requires i < |w.steps|
  {
    [ModuleApprovalCheck(i)] + InputChecks(i, |w.steps[i].inputBindings|) + OutputChecks(i, |w.steps[i].outputBindings|)
  }

  /** The checks of one step. */
  function ChecksOf(w: Workflow, i: nat): seq<Check>
    requires i < |w.steps|
  {
    [DuplicateCheck(i), DeliveryCheck(i)] + ([ModuleCheck(i)] + ModuleChecks(w, i))
  }

  function StepChecks(w: Workflow, n: nat): seq<Check>
    requires n <= |w.steps|
  {
    if n == 0 then [] else StepChecks(w, n - 1) + ChecksOf(w, n - 1)
  }

  function TransitionChecks(n: nat): seq<Check> {
    if n == 0 then [] else TransitionChecks(n - 1) + [FromCheck(n - 1), ToCheck(n - 1)]
  }

  function ProductionChecks(n: nat): seq<Check> {
    if n == 0 then [] else ProductionChecks(n - 1) + [ProductionCheck(n - 1)]
  }

  /** All checks of a workflow in the order of the pass: steps, then transitions, then outputs. */
  function Checks(w: Workflow): seq<Check> {
    StepChecks(w, |w.steps|) + TransitionChecks(|w.transitions|) + ProductionChecks(|w.outputs|)
  }

  /** A declared input, or an output of one of the first `n` steps whose module is registered. */
  ghost predicate KnownBy(w: Workflow, registry: Registry, n: nat, ref: string)
    requires n <= |w.steps|
  {
    || (exists k :: 0 <= k < |w.inputs| && "$inputs." + w.inputs[k] == ref)
    || exists j :: 0 <= j < n && w.steps[j].moduleCode in registry && Outputs(w.steps[j], ref)
  }

  ghost predicate HasStep(w: Workflow, id: string) {
    exists j :: 0 <= j < |w.steps| && w.steps[j].stepId == id
  }

  /** What a check finds, for every check on its own. */
  ghost predicate Finds(w: Workflow, registry: Registry, check: Check, issue: WorkflowIssue) {
    match check
    case DuplicateCheck(i) =>
      && i < |w.steps| && (exists j :: 0 <= j < i && w.steps[j].stepId == w.steps[i].stepId)
      && issue == DuplicateStepId(w.steps[i].stepId)
    case DeliveryCheck(i) =>
      && i < |w.steps| && w.steps[i].kind == Deliver && !w.steps[i].requiresApproval
      && issue == ApprovalRequired(w.steps[i].stepId)
    case ModuleCheck(i) =>
      && i < |w.steps| && w.steps[i].moduleCode !in registry
      && issue == UnknownModule(w.steps[i].stepId, w.steps[i].moduleCode)
    case ModuleApprovalCheck(i) =>
      && i < |w.steps| && w.steps[i].moduleCode in registry
      && registry[w.steps[i].moduleCode].requiresApproval && !w.steps[i].requiresApproval
      && issue == ModuleRequiresApproval(w.steps[i].stepId, w.steps[i].moduleCode)
    case InputKeyCheck(i, k) =>
      && i < |w.steps| && k < |w.steps[i].inputBindings| && w.steps[i].moduleCode in registry
      && var step, key := w.steps[i], w.steps[i].inputBindings[k].key;
      && key !in registry[step.moduleCode].inputBindings
      && issue == UnexpectedInput(step.stepId, key, step.moduleCode)
    case InputValueCheck(i, k) =>
      && i < |w.steps| && k < |w.steps[i].inputBindings| && w.steps[i].moduleCode in registry
      && var step, b := w.steps[i], w.steps[i].inputBindings[k];
      && "$inputs." <= b.value && !KnownBy(w, registry, i, b.value)
      && issue == MissingInput(step.stepId, b.key, b.value)
    case OutputKeyCheck(i, k) =>
      && i < |w.steps| && k < |w.steps[i].outputBindings| && w.steps[i].moduleCode in registry
      && var step, key := w.steps[i], w.steps[i].outputBindings[k].key;
      && key !in registry[step.moduleCode].outputBindings
      && issue == UnexpectedOutput(step.stepId, key, step.moduleCode)
    case FromCheck(i) =>
      i < |w.transitions| && !HasStep(w, w.transitions[i].from) && issue == MissingFrom(w.transitions[i].from)
    case ToCheck(i) =>
      i < |w.transitions| && !HasStep(w, w.transitions[i].to) && issue == MissingTo(w.transitions[i].to)
    case ProductionCheck(i) =>
      && i < |w.outputs| && !KnownBy(w, registry, |w.steps|, "$outputs." + w.outputs[i])
      && (forall j :: 0 <= j < i ==> w.outputs[j] != w.outputs[i])
      && issue == NotProduced("$outputs." + w.outputs[i])
  }

  ghost function Finding(w: Workflow, registry: Registry): (Check, WorkflowIssue) -> bool {
    (check: Check, issue: WorkflowIssue) => Finds(w, registry, check, issue)
  }

  lemma KnownIsAvailable(w: Workflow, registry: Registry, n: nat, ref: string)
    requires n <= |w.steps|
    ensures KnownBy(w, registry, n, ref) <==> Available(w, registry, n, ref)
  {
    assert forall j :: 0 <= j < |w.steps| ==> (Outputs(w.steps[j], ref) <==> Produces(w.steps[j], ref));
  }

  lemma OneCheck(check: Check, condition: bool, issue: WorkflowIssue, finds: (Check, WorkflowIssue) -> bool)
    requires forall x :: finds(check, x) <==> condition && x == issue
    ensures Picks([check], When(condition, issue), finds)
  {
    assert [check][..0] == [] && Picks([], [], finds);
    if condition {
      assert finds(check, issue) && [issue][..0] == [];
    }
  }

  lemma TwoChecks(c1: Check, x1: seq<WorkflowIssue>, c2: Check, x2: seq<WorkflowIssue>,
                  finds: (Check, WorkflowIssue) -> bool)
    requires Picks([c1], x1, finds) && Picks([c2], x2, finds)
    ensures Picks([c1, c2], x1 + x2, finds)
  {
    PicksConcat([c1], x1, [c2], x2, finds);
    assert [c1] + [c2] == [c1, c2];
  }

  ghost predicate BindingPicked(w: Workflow, registry: Registry, i: nat, k: nat, finds: (Check, WorkflowIssue) -> bool)
    requires i < |w.steps| && k < |w.steps[i].inputBindings| && w.steps[i].moduleCode in registry
  {
    var step, m, b := w.steps[i], registry[w.steps[i].moduleCode], w.steps[i].inputBindings[k];
    Picks([InputKeyCheck(i, k), InputValueCheck(i, k)],
          When(b.key !in m.inputBindings, UnexpectedInput(step.stepId, b.key, step.moduleCode))
          + When(MissesInput(w, registry, i, b), MissingInput(step.stepId, b.key, b.value)), finds)
  }

  lemma BindingFound(w: Workflow, registry: Registry, i: nat, k: nat)
    requires i < |w.steps| && k < |w.steps[i].inputBindings| && w.steps[i].moduleCode in registry
    ensures BindingPicked(w, registry, i, k, Finding(w, registry))
  {
    var step, m, b := w.steps[i], registry[w.steps[i].moduleCode], w.steps[i].inputBindings[k];
    var finds := Finding(w, registry);
    var x1 := UnexpectedInput(step.stepId, b.key, step.moduleCode);
    var x2 := MissingInput(step.stepId, b.key, b.value);
    KnownIsAvailable(w, registry, i, b.value);
    OneCheck(InputKeyCheck(i, k), b.key !in m.inputBindings, x1, finds);
    OneCheck(InputValueCheck(i, k), MissesInput(w, registry, i, b), x2, finds);
    TwoChecks(InputKeyCheck(i, k), When(b.key !in m.inputBindings, x1),
              InputValueCheck(i, k), When(MissesInput(w, registry, i, b), x2), finds);
  }

  /** Two more lists behind a picked one. */
  lemma PicksTwoMore(a: seq<Check>, x: seq<WorkflowIssue>, b: seq<Check>, y: seq<WorkflowIssue>, z: seq<WorkflowIssue>,
                     finds: (Check, WorkflowIssue) -> bool)
    requires Picks(a, x, finds) && Picks(b, y + z, finds)
    ensures Picks(a + b, x + y + z, finds)
  {
    PicksConcat(a, x, b, y + z, finds);
    assert x + (y + z) == x + y + z;
  }

  lemma {:induction false} InputsPicked(w: Workflow, registry: Registry, i: nat, n: nat,
                                        finds: (Check, WorkflowIssue) -> bool)
    requires i < |w.steps| && n <= |w.steps[i].inputBindings| && w.steps[i].moduleCode in registry
    requires forall k :: 0 <= k < n ==> BindingPicked(w, registry, i, k, finds)
    ensures Picks(InputChecks(i, n), InputIssues(w, registry, registry[w.steps[i].moduleCode], i, n), finds)
  {
    if n > 0 {
      var step, m, b := w.steps[i], registry[w.steps[i].moduleCode], w.steps[i].inputBindings[n - 1];
      InputsPicked(w, registry, i, n - 1, finds);
      assert BindingPicked(w, registry, i, n - 1, finds);
      PicksTwoMore(InputChecks(i, n - 1), InputIssues(w, registry, m, i, n - 1),
                   [InputKeyCheck(i, n - 1), InputValueCheck(i, n - 1)],
                   When(b.key !in m.inputBindings, UnexpectedInput(step.stepId, b.key, step.moduleCode)),
                   When(MissesInput(w, registry, i, b), MissingInput(step.stepId, b.key, b.value)), finds);
    }
  }

  lemma InputsFound(w: Workflow, registry: Registry, i: nat)
    requires i < |w.steps| && w.steps[i].moduleCode in registry
    ensures var n := |w.steps[i].inputBindings|;
            Picks(InputChecks(i, n), InputIssues(w, registry, registry[w.steps[i].moduleCode], i, n),
                  Finding(w, registry))
  {
    forall k | 0 <= k < |w.steps[i].inputBindings|
      ensures BindingPicked(w, registry, i, k, Finding(w, registry))
    {
      BindingFound(w, registry, i, k);
    }
    InputsPicked(w, registry, i, |w.steps[i].inputBindings|, Finding(w, registry));
  }

  ghost predicate OutputPicked(w: Workflow, registry: Registry, i: nat, k: nat, finds: (Check, WorkflowIssue) -> bool)
    requires i < |w.steps| && k < |w.steps[i].outputBindings| && w.steps[i].moduleCode in registry
  {
    var step, m, b := w.steps[i], registry[w.steps[i].moduleCode], w.steps[i].outputBindings[k];
    Picks([OutputKeyCheck(i, k)],
          When(b.key !in m.outputBindings, UnexpectedOutput(step.stepId, b.key, step.moduleCode)), finds)
  }

  lemma OutputFound(w: Workflow, registry: Registry, i: nat, k: nat)
    requires i < |w.steps| && k < |w.steps[i].outputBindings| && w.steps[i].moduleCode in registry
    ensures OutputPicked(w, registry, i, k, Finding(w, registry))
  {
    var step, m, b := w.steps[i], registry[w.steps[i].moduleCode], w.steps[i].outputBindings[k];
    OneCheck(OutputKeyCheck(i, k), b.key !in m.outputBindings, UnexpectedOutput(step.stepId, b.key, step.moduleCode),
             Finding(w, registry));
  }

  lemma {:induction false} OutputsPicked(w: Workflow, registry: Registry, i: nat, n: nat,
                                         finds: (Check, WorkflowIssue) -> bool)
    requires i < |w.steps| && n <= |w.steps[i].outputBindings| && w.steps[i].moduleCode in registry
    requires forall k :: 0 <= k < n ==> OutputPicked(w, registry, i, k, finds)
    ensures Picks(OutputChecks(i, n), OutputIssues(w.steps[i], registry[w.steps[i].moduleCode], n), finds)
  {
    if n > 0 {
      var step, m, b := w.steps[i], registry[w.steps[i].moduleCode], w.steps[i].outputBindings[n - 1];
      OutputsPicked(w, registry, i, n - 1, finds);
      assert OutputPicked(w, registry, i, n - 1, finds);
      PicksConcat(OutputChecks(i, n - 1), OutputIssues(step, m, n - 1), [OutputKeyCheck(i, n - 1)],
                  When(b.key !in m.outputBindings, UnexpectedOutput(step.stepId, b.key, step.moduleCode)), finds);
    }
  }

  lemma OutputsFound(w: Workflow, registry: Registry, i: nat)
    requires i < |w.steps| && w.steps[i].moduleCode in registry
    ensures var n := |w.steps[i].outputBindings|;
            Picks(OutputChecks(i, n), OutputIssues(w.steps[i], registry[w.steps[i].moduleCode], n),
                  Finding(w, registry))
  {
    forall k | 0 <= k < |w.steps[i].outputBindings|
      ensures OutputPicked(w, registry, i, k, Finding(w, registry))
    {
      OutputFound(w, registry, i, k);
    }
    OutputsPicked(w, registry, i, |w.steps[i].outputBindings|, Finding(w, registry));
  }

  lemma ModuleFound(w: Workflow, registry: Registry, i: nat)
    requires i < |w.steps| && w.steps[i].moduleCode in registry
    ensures Picks(ModuleChecks(w, i), ModuleIssues(w, registry, i), Finding(w, registry))
  {
    var step, m := w.steps[i], registry[w.steps[i].moduleCode];
    var issue := ModuleRequiresApproval(step.stepId, step.moduleCode);
    OneCheck(ModuleApprovalCheck(i), m.requiresApproval && !step.requiresApproval, issue, Finding(w, registry));
    InputsFound(w, registry, i);
    OutputsFound(w, registry, i);
    var own := When(m.requiresApproval && !step.requiresApproval, issue);
    var inputs := InputIssues(w, registry, m, i, |step.inputBindings|);
    PicksConcat([ModuleApprovalCheck(i)], own, InputChecks(i, |step.inputBindings|), inputs, Finding(w, registry));
    PicksConcat([ModuleApprovalCheck(i)] + InputChecks(i, |step.inputBindings|), own + inputs,
                OutputChecks(i, |step.outputBindings|), OutputIssues(step, m, |step.outputBindings|),
                Finding(w, registry));
  }

  lemma {:induction false} NothingFound(checks: seq<Check>, finds: (Check, WorkflowIssue) -> bool)
    requires forall c, x :: c in checks ==> !finds(c, x)
    ensures Picks(checks, [], finds)
  {
    if checks != [] {
      NothingFound(checks[..|checks| - 1], finds);
      assert checks[|checks| - 1] in checks;
    }
  }

  lemma {:induction false} InputChecksOf(i: nat, n: nat, c: Check)
    ensures c in InputChecks(i, n) <==> (c.InputKeyCheck? || c.InputValueCheck?) && c.step == i && c.binding < n
  {
    if n > 0 {
      InputChecksOf(i, n - 1, c);
    }
  }

  lemma {:induction false} OutputChecksOf(i: nat, n: nat, c: Check)
    ensures c in OutputChecks(i, n) <==> c.OutputKeyCheck? && c.step == i && c.binding < n
  {
    if n > 0 {
      OutputChecksOf(i, n - 1, c);
    }
  }

  /** Without a registered module nothing more is found. */
  lemma NoModuleFound(w: Workflow, registry: Registry, i: nat)
    requires i < |w.steps| && w.steps[i].moduleCode !in registry
    ensures Picks(ModuleChecks(w, i), [], Finding(w, registry))
  {
    forall c, x | c in ModuleChecks(w, i)
      ensures !Finding(w, registry)(c, x)
    {
      InputChecksOf(i, |w.steps[i].inputBindings|, c);
      OutputChecksOf(i, |w.steps[i].outputBindings|, c);
    }
    NothingFound(ModuleChecks(w, i), Finding(w, registry));
  }

  lemma KnownModuleFound(w: Workflow, registry: Registry, i: nat)
    requires i < |w.steps|
    ensures Picks([ModuleCheck(i)] + ModuleChecks(w, i),
                  if w.steps[i].moduleCode !in registry
                  then [UnknownModule(w.steps[i].stepId, w.steps[i].moduleCode)]
                  else ModuleIssues(w, registry, i),
                  Finding(w, registry))
  {
    var step, finds := w.steps[i], Finding(w, registry);
    var unknown := UnknownModule(step.stepId, step.moduleCode);
    OneCheck(ModuleCheck(i), step.moduleCode !in registry, unknown, finds);
    if step.moduleCode !in registry {
      NoModuleFound(w, registry, i);
      PicksConcat([ModuleCheck(i)], [unknown], ModuleChecks(w, i), [], finds);
      assert [unknown] + [] == [unknown];
    } else {
      ModuleFound(w, registry, i);
      PicksConcat([ModuleCheck(i)], [], ModuleChecks(w, i), ModuleIssues(w, registry, i), finds);
      assert [] + ModuleIssues(w, registry, i) == ModuleIssues(w, registry, i);
    }
  }

  lemma StepFound(w: Workflow, registry: Registry, i: nat)
    requires i < |w.steps|
    ensures Picks(ChecksOf(w, i), StepIssues(w, registry, i), Finding(w, registry))
  {
    var step, finds := w.steps[i], Finding(w, registry);
    var c1, c2 := IdSeenBefore(w.steps, i), step.kind == Deliver && !step.requiresApproval;
    OneCheck(DuplicateCheck(i), c1, DuplicateStepId(step.stepId), finds);
    OneCheck(DeliveryCheck(i), c2, ApprovalRequired(step.stepId), finds);
    TwoChecks(DuplicateCheck(i), When(c1, DuplicateStepId(step.stepId)),
              DeliveryCheck(i), When(c2, ApprovalRequired(step.stepId)), finds);
    KnownModuleFound(w, registry, i);
    PicksConcat([DuplicateCheck(i), DeliveryCheck(i)], 
                When(c1, DuplicateStepId(step.stepId)) + When(c2, ApprovalRequired(step.stepId)),
                [ModuleCheck(i)] + ModuleChecks(w, i),
                if step.moduleCode !in registry then [UnknownModule(step.stepId, step.moduleCode)]
                else ModuleIssues(w, registry, i), finds);
  }

  ghost predicate StepsPicked(w: Workflow, registry: Registry, n: nat) {
    n <= |w.steps| && Picks(StepChecks(w, n), StepsIssues(w, registry, n), Finding(w, registry))
  }

  lemma NextStep(w: Workflow, registry: Registry, n: nat)
    requires n < |w.steps| && StepsPicked(w, registry, n)
    ensures StepsPicked(w, registry, n + 1)
  {
    StepFound(w, registry, n);
    PicksConcat(StepChecks(w, n), StepsIssues(w, registry, n), ChecksOf(w, n), StepIssues(w, registry, n),
                Finding(w, registry));
  }

  lemma StepsFound(w: Workflow, registry: Registry)
    ensures StepsPicked(w, registry, |w.steps|)
  {
    PicksNothing(Finding(w, registry));
    var holds := (n: nat) => StepsPicked(w, registry, n);
    forall n: nat | n < |w.steps| && holds(n)
      ensures holds(n + 1)
    {
      NextStep(w, registry, n);
    }
    Inductively(holds, |w.steps|);
  }

  ghost predicate EndsPicked(w: Workflow, i: nat, finds: (Check, WorkflowIssue) -> bool)
    requires i < |w.transitions|
  {
    var t := w.transitions[i];
    Picks([FromCheck(i), ToCheck(i)],
          When(!IsStepId(w.steps, t.from), MissingFrom(t.from)) + When(!IsStepId(w.steps, t.to), MissingTo(t.to)),
          finds)
  }

  lemma EndsFound(w: Workflow, registry: Registry, i: nat)
    requires i < |w.transitions|
    ensures EndsPicked(w, i, Finding(w, registry))
  {
    var t, finds := w.transitions[i], Finding(w, registry);
    assert forall id :: IsStepId(w.steps, id) <==> HasStep(w, id);
    OneCheck(FromCheck(i), !IsStepId(w.steps, t.from), MissingFrom(t.from), finds);
    OneCheck(ToCheck(i), !IsStepId(w.steps, t.to), MissingTo(t.to), finds);
    TwoChecks(FromCheck(i), When(!IsStepId(w.steps, t.from), MissingFrom(t.from)),
              ToCheck(i), When(!IsStepId(w.steps, t.to), MissingTo(t.to)), finds);
  }

  lemma {:induction false} TransitionsPicked(w: Workflow, n: nat, finds: (Check, WorkflowIssue) -> bool)
    requires n <= |w.transitions| && forall i :: 0 <= i < n ==> EndsPicked(w, i, finds)
    ensures Picks(TransitionChecks(n), TransitionIssues(w, n), finds)
  {
    if n > 0 {
      var t := w.transitions[n - 1];
      TransitionsPicked(w, n - 1, finds);
      assert EndsPicked(w, n - 1, finds);
      PicksTwoMore(TransitionChecks(n - 1), TransitionIssues(w, n - 1), [FromCheck(n - 1), ToCheck(n - 1)],
                   When(!IsStepId(w.steps, t.from), MissingFrom(t.from)),
                   When(!IsStepId(w.steps, t.to), MissingTo(t.to)), finds);
    }
  }

  lemma {:induction false} OutputRefsAre(w: Workflow, n: nat, ref: string)
    requires n <= |w.outputs|
    ensures ref in OutputRefs(w, n) <==> exists i :: 0 <= i < n && OUTPUT_PREFIX + w.outputs[i] == ref
  {
    if n > 0 {
      OutputRefsAre(w, n - 1, ref);
    }
  }

  lemma NextRef(w: Workflow, registry: Registry, n: nat)
    requires n < |w.outputs|
    ensures var refs, ref := OutputRefs(w, n), OUTPUT_PREFIX + w.outputs[n];
            ProductionIssues(w, registry, OutputRefs(w, n + 1)) ==
            ProductionIssues(w, registry, refs)
            + When(ref !in refs && !Available(w, registry, |w.steps|, ref), NotProduced(ref))
  {
    var refs, ref := OutputRefs(w, n), OUTPUT_PREFIX + w.outputs[n];
    assert (refs + [ref])[..|refs|] == refs;
  }

  lemma PrefixedSame(a: string, b: string)
    ensures OUTPUT_PREFIX + a == OUTPUT_PREFIX + b <==> a == b
  {
    assert a == (OUTPUT_PREFIX + a)[|OUTPUT_PREFIX|..] && b == (OUTPUT_PREFIX + b)[|OUTPUT_PREFIX|..];
  }

  ghost predicate ProductionPicked(w: Workflow, registry: Registry, i: nat, finds: (Check, WorkflowIssue) -> bool)
    requires i < |w.outputs|
  {
    var ref := OUTPUT_PREFIX + w.outputs[i];
    Picks([ProductionCheck(i)],
          When(ref !in OutputRefs(w, i) && !Available(w, registry, |w.steps|, ref), NotProduced(ref)), finds)
  }

  lemma ProductionFound(w: Workflow, registry: Registry, i: nat)
    requires i < |w.outputs|
    ensures ProductionPicked(w, registry, i, Finding(w, registry))
  {
    var refs, ref := OutputRefs(w, i), OUTPUT_PREFIX + w.outputs[i];
    OutputRefsAre(w, i, ref);
    KnownIsAvailable(w, registry, |w.steps|, ref);
    forall j | 0 <= j < i
      ensures OUTPUT_PREFIX + w.outputs[j] == ref <==> w.outputs[j] == w.outputs[i]
    {
      PrefixedSame(w.outputs[j], w.outputs[i]);
    }
    OneCheck(ProductionCheck(i), ref !in refs && !Available(w, registry, |w.steps|, ref), NotProduced(ref),
             Finding(w, registry));
  }

  ghost predicate OutputsPickedTo(w: Workflow, registry: Registry, n: nat) {
    && n <= |w.outputs|
    && Picks(ProductionChecks(n), ProductionIssues(w, registry, OutputRefs(w, n)), Finding(w, registry))
  }

  lemma NextProduction(w: Workflow, registry: Registry, n: nat)
    requires n < |w.outputs| && OutputsPickedTo(w, registry, n)
    ensures OutputsPickedTo(w, registry, n + 1)
  {
    var refs, ref := OutputRefs(w, n), OUTPUT_PREFIX + w.outputs[n];
    ProductionFound(w, registry, n);
    NextRef(w, registry, n);
    PicksConcat(ProductionChecks(n), ProductionIssues(w, registry, refs), [ProductionCheck(n)],
                When(ref !in refs && !Available(w, registry, |w.steps|, ref), NotProduced(ref)), Finding(w, registry));
  }

  /** An output is checked once, at its first mention. */
  lemma OutputsChecked(w: Workflow, registry: Registry)
    ensures OutputsPickedTo(w, registry, |w.outputs|)
  {
    PicksNothing(Finding(w, registry));
    var holds := (n: nat) => OutputsPickedTo(w, registry, n);
    forall n: nat | n < |w.outputs| && holds(n)
      ensures holds(n + 1)
    {
      NextProduction(w, registry, n);
    }
    Inductively(holds, |w.outputs|);
  }

  lemma PartsListed(w: Workflow, registry: Registry)
    ensures Picks(StepChecks(w, |w.steps|), StepsIssues(w, registry, |w.steps|), Finding(w, registry))
    ensures Picks(TransitionChecks(|w.transitions|), TransitionIssues(w, |w.transitions|), Finding(w, registry))
    ensures Picks(ProductionChecks(|w.outputs|), ProductionIssues(w, registry, OutputRefs(w, |w.outputs|)),
                  Finding(w, registry))
  {
    StepsFound(w, registry);
    forall i | 0 <= i < |w.transitions|
      ensures EndsPicked(w, i, Finding(w, registry))
    {
      EndsFound(w, registry, i);
    }
    TransitionsPicked(w, |w.transitions|, Finding(w, registry));
    OutputsChecked(w, registry);
  }

  /** The issues are what the checks find, in the order of the checks and each once. */
  lemma IssuesListed(w: Workflow, registry: Registry)
    ensures Picks(Checks(w), SemanticIssues(w, registry), Finding(w, registry))
  {
    var finds, refs := Finding(w, registry), OutputRefs(w, |w.outputs|);
    var steps, transitions := StepsIssues(w, registry, |w.steps|), TransitionIssues(w, |w.transitions|);
    PartsListed(w, registry);
    PicksConcat(StepChecks(w, |w.steps|), steps, TransitionChecks(|w.transitions|), transitions, finds);
    PicksConcat(StepChecks(w, |w.steps|) + TransitionChecks(|w.transitions|), steps + transitions,
                ProductionChecks(|w.outputs|), ProductionIssues(w, registry, refs), finds);
  }

  ghost predicate Reason(w: Workflow, registry: Registry, issue: WorkflowIssue) {
    exists check :: check in Checks(w) && Finds(w, registry, check, issue)
  }

  /** An issue is reported exactly when some check finds it. */
  lemma IssuesExact(w: Workflow, registry: Registry, issue: WorkflowIssue)
    ensures issue in SemanticIssues(w, registry) <==> Reason(w, registry, issue)
  {
    IssuesListed(w, registry);
    PicksExactly(Checks(w), SemanticIssues(w, registry), Finding(w, registry), issue);
    if i :| 0 <= i < |Checks(w)| && Finding(w, registry)(Checks(w)[i], issue) {
      assert Checks(w)[i] in Checks(w);
    }
    if check :| check in Checks(w) && Finds(w, registry, check, issue) {
      var i :| 0 <= i < |Checks(w)| && Checks(w)[i] == check;
      assert Finding(w, registry)(Checks(w)[i], issue);
    }
  }

  lemma {:induction false} StepChecksOf(w: Workflow, n: nat, i: nat, c: Check)
    requires i < n <= |w.steps| && c in ChecksOf(w, i)
    ensures c in StepChecks(w, n)
  {
    if i < n - 1 {
      StepChecksOf(w, n - 1, i, c);
    }
  }

  lemma {:induction false} TransitionChecksOf(n: nat, c: Check)
    ensures c in TransitionChecks(n) <==> (c.FromCheck? || c.ToCheck?) && c.transition < n
  {
    if n > 0 {
      TransitionChecksOf(n - 1, c);
    }
  }

  lemma {:induction false} ProductionChecksOf(n: nat, c: Check)
    ensures c in ProductionChecks(n) <==> c.ProductionCheck? && c.output < n
  {
    if n > 0 {
      ProductionChecksOf(n - 1, c);
    }
  }

  lemma CheckedStep(w: Workflow, registry: Registry, i: nat, c: Check, issue: WorkflowIssue)
    requires i < |w.steps| && c in ChecksOf(w, i) && Finds(w, registry, c, issue)
    ensures issue in SemanticIssues(w, registry)
  {
    StepChecksOf(w, |w.steps|, i, c);
    IssuesExact(w, registry, issue);
  }

  // ----- From issues to validity -----

  /** Step `i` is reported without errors; stated on the pass's own registry. */
  ghost predicate StepClean(w: Workflow, registry: Registry, i: nat)
    requires i < |w.steps|
  {
    var step := w.steps[i];
    && !IdSeenBefore(w.steps, i)
    && (step.kind == Deliver ==> step.requiresApproval)
    && step.moduleCode in registry
    && (registry[step.moduleCode].requiresApproval ==> step.requiresApproval)
    && forall k :: 0 <= k < |step.inputBindings| ==> !MissesInput(w, registry, i, step.inputBindings[k])
  }

  ghost predicate AllClean(w: Workflow, registry: Registry) {
    && (forall i :: 0 <= i < |w.steps| ==> StepClean(w, registry, i))
    && TransitionsSound(w)
    && forall i :: 0 <= i < |w.outputs| ==> Available(w, registry, |w.steps|, OUTPUT_PREFIX + w.outputs[i])
  }

  lemma StepFoundBreaks(w: Workflow, registry: Registry, check: Check, issue: WorkflowIssue)
    requires Finds(w, registry, check, issue) && issue.Severity() == Error
    requires !check.FromCheck? && !check.ToCheck? && !check.ProductionCheck?
    ensures check.step < |w.steps| && !StepClean(w, registry, check.step)
  {
    if check.InputValueCheck? {
      KnownIsAvailable(w, registry, check.step, w.steps[check.step].inputBindings[check.binding].value);
    }
  }

  lemma FoundBreaks(w: Workflow, registry: Registry, check: Check, issue: WorkflowIssue)
    requires Finds(w, registry, check, issue) && issue.Severity() == Error
    ensures !AllClean(w, registry)
  {
    match check
    case FromCheck(i) => assert !IsStepId(w.steps, w.transitions[i].from);
    case ToCheck(i) => assert !IsStepId(w.steps, w.transitions[i].to);
    case ProductionCheck(i) => KnownIsAvailable(w, registry, |w.steps|, "$outputs." + w.outputs[i]);
    case _ => StepFoundBreaks(w, registry, check, issue);
  }

  lemma ErrorBreaks(w: Workflow, registry: Registry, issue: WorkflowIssue)
    requires issue in SemanticIssues(w, registry) && issue.Severity() == Error
    ensures !AllClean(w, registry)
  {
    IssuesExact(w, registry, issue);
    var check :| check in Checks(w) && Finds(w, registry, check, issue);
    FoundBreaks(w, registry, check, issue);
  }

  /** An error that a step which is not clean gives rise to. */
  lemma StepError(w: Workflow, registry: Registry, i: nat) returns (issue: WorkflowIssue)
    requires i < |w.steps| && !StepClean(w, registry, i)
    ensures issue in SemanticIssues(w, registry) && issue.Severity() == Error
  {
    var step := w.steps[i];
    var check: Check;
    if IdSeenBefore(w.steps, i) {
      issue, check := DuplicateStepId(step.stepId), DuplicateCheck(i);
    } else if step.kind == Deliver && !step.requiresApproval {
      issue, check := ApprovalRequired(step.stepId), DeliveryCheck(i);
    } else if step.moduleCode !in registry {
      issue, check := UnknownModule(step.stepId, step.moduleCode), ModuleCheck(i);
    } else if registry[step.moduleCode].requiresApproval && !step.requiresApproval {
      issue, check := ModuleRequiresApproval(step.stepId, step.moduleCode), ModuleApprovalCheck(i);
    } else {
      var k :| 0 <= k < |step.inputBindings| && MissesInput(w, registry, i, step.inputBindings[k]);
      var b := step.inputBindings[k];
      KnownIsAvailable(w, registry, i, b.value);
      InputChecksOf(i, |step.inputBindings|, InputValueCheck(i, k));
      issue, check := MissingInput(step.stepId, b.key, b.value), InputValueCheck(i, k);
    }
    CheckedStep(w, registry, i, check, issue);
  }

  lemma BreaksError(w: Workflow, registry: Registry) returns (issue: WorkflowIssue)
    requires !AllClean(w, registry)
    ensures issue in SemanticIssues(w, registry) && issue.Severity() == Error
  {
    if i :| 0 <= i < |w.steps| && !StepClean(w, registry, i) {
      issue := StepError(w, registry, i);
    } else if i :| 0 <= i < |w.transitions| && !IsStepId(w.steps, w.transitions[i].from) {
      issue := MissingFrom(w.transitions[i].from);
      TransitionChecksOf(|w.transitions|, FromCheck(i));
      assert Finds(w, registry, FromCheck(i), issue);
    } else if i :| 0 <= i < |w.transitions| && !IsStepId(w.steps, w.transitions[i].to) {
      issue := MissingTo(w.transitions[i].to);
      TransitionChecksOf(|w.transitions|, ToCheck(i));
      assert Finds(w, registry, ToCheck(i), issue);
    } else {
      issue := OutputError(w, registry);
    }
    IssuesExact(w, registry, issue);
  }

  lemma OutputError(w: Workflow, registry: Registry) returns (issue: WorkflowIssue)
    requires exists i :: 0 <= i < |w.outputs| && !Available(w, registry, |w.steps|, OUTPUT_PREFIX + w.outputs[i])
    ensures Reason(w, registry, issue) && issue.Severity() == Error
  {
    var i :| 0 <= i < |w.outputs| && !Available(w, registry, |w.steps|, OUTPUT_PREFIX + w.outputs[i]);
    var first := FirstMention(w, i);
    KnownIsAvailable(w, registry, |w.steps|, OUTPUT_PREFIX + w.outputs[i]);
    ProductionChecksOf(|w.outputs|, ProductionCheck(first));
    issue := NotProduced("$outputs." + w.outputs[i]);
    assert Finds(w, registry, ProductionCheck(first), issue);
  }

  lemma {:induction false} FirstMention(w: Workflow, i: nat) returns (first: nat)
    requires i < |w.outputs|
    ensures first <= i && w.outputs[first] == w.outputs[i]
    ensures forall j :: 0 <= j < first ==> w.outputs[j] != w.outputs[i]
    decreases i
  {
    first := i;
    if j: nat :| j < i && w.outputs[j] == w.outputs[i] {
      first := FirstMention(w, j);
    }
  }

  /** A workflow input is never spelled like a workflow output. */
  lemma PrefixesDiffer(id: string, other: string)
    ensures INPUT_PREFIX + id != OUTPUT_PREFIX + other
  {
    assert (INPUT_PREFIX + id)[1] == 'i' && (OUTPUT_PREFIX + other)[1] == 'o';
  }

  /** Without errors every module is registered, so registered and plain production coincide. */
  lemma CleanIsSound(w: Workflow, modules: seq<ModuleContract>, i: nat)
    requires i < |w.steps|
    requires forall j :: 0 <= j < i ==> w.steps[j].moduleCode in BuildRegistry(modules)
    ensures StepClean(w, BuildRegistry(modules), i) <==> StepSound(w, modules, i)
  {
    var registry := BuildRegistry(modules);
    var step := w.steps[i];
    if step.moduleCode in registry {
      RegistryHoldsLast(modules, step.moduleCode, registry[step.moduleCode]);
    }
    if m :| Registered(modules, step.moduleCode, m) {
      RegistryHoldsLast(modules, step.moduleCode, m);
    }
  }

  lemma {:induction false} CleanAreSound(w: Workflow, modules: seq<ModuleContract>, n: nat)
    requires n <= |w.steps|
    ensures (forall i :: 0 <= i < n ==> StepClean(w, BuildRegistry(modules), i)) <==>
            (forall i :: 0 <= i < n ==> StepSound(w, modules, i))
  {
    if n > 0 {
      CleanAreSound(w, modules, n - 1);
      if forall i :: 0 <= i < n - 1 ==> StepClean(w, BuildRegistry(modules), i) {
        forall j | 0 <= j < n - 1
          ensures w.steps[j].moduleCode in BuildRegistry(modules)
        {
          assert StepClean(w, BuildRegistry(modules), j);
        }
        CleanIsSound(w, modules, n - 1);
      }
    }
  }

  lemma OutputsSound(w: Workflow, registry: Registry, i: nat)
    requires i < |w.outputs|
    requires forall j :: 0 <= j < |w.steps| ==> w.steps[j].moduleCode in registry
    ensures Available(w, registry, |w.steps|, OUTPUT_PREFIX + w.outputs[i]) <==>
            Produced(w, OUTPUT_PREFIX + w.outputs[i])
  {
    forall k | 0 <= k < |w.inputs|
      ensures INPUT_PREFIX + w.inputs[k] != OUTPUT_PREFIX + w.outputs[i]
    {
      PrefixesDiffer(w.inputs[k], w.outputs[i]);
    }
  }

  lemma AllCleanIffSound(w: Workflow, modules: seq<ModuleContract>)
    ensures AllClean(w, BuildRegistry(modules)) <==> Sound(w, modules)
  {
    CleanAreSound(w, modules, |w.steps|);
    if forall i :: 0 <= i < |w.steps| ==> StepClean(w, BuildRegistry(modules), i) {
      forall i | 0 <= i < |w.outputs|
        ensures Available(w, BuildRegistry(modules), |w.steps|, OUTPUT_PREFIX + w.outputs[i]) <==>
                Produced(w, OUTPUT_PREFIX + w.outputs[i])
      {
        forall j | 0 <= j < |w.steps|
          ensures w.steps[j].moduleCode in BuildRegistry(modules)
        {
          assert StepClean(w, BuildRegistry(modules), j);
        }
        OutputsSound(w, BuildRegistry(modules), i);
      }
    }
  }

  /** The report calls a workflow valid exactly when it passes the schema and is sound. */
  lemma ValidIffSound(schemaIssues: seq<WorkflowIssue>, w: Workflow, modules: seq<ModuleContract>)
    ensures CreateReport(schemaIssues, w, modules).valid <==> schemaIssues == [] && Sound(w, modules)
  {
    var registry := BuildRegistry(modules);
    AllCleanIffSound(w, modules);
    if HasError(SemanticIssues(w, registry)) {
      var k :| 0 <= k < |SemanticIssues(w, registry)| && SemanticIssues(w, registry)[k].Severity() == Error;
      ErrorBreaks(w, registry, SemanticIssues(w, registry)[k]);
    } else if !AllClean(w, registry) {
      var issue := BreaksError(w, registry);
      assert false;
    }
  }

  method CreateWorkflowValidationReport(schemaIssues: seq<WorkflowIssue>, w: Workflow, modules: seq<ModuleContract>)
    returns (report: ValidationReport)
    ensures report == CreateReport(schemaIssues, w, modules)
    ensures report.valid <==> schemaIssues == [] && Sound(w, modules)
    ensures ReportLists(schemaIssues, w, modules, report)
  {
    ValidIffSound(schemaIssues, w, modules);
    ReportExact(schemaIssues, w, modules);
    if schemaIssues != [] {
      return ValidationReport(false, schemaIssues, [], []);
    }
    var issues := CollectSemanticIssues(w, modules);
    report := ValidationReport(!HasError(issues), WithSeverity(issues, Error), WithSeverity(issues, Warning),
                               WithSeverity(issues, Info));
  }

  /** Each list of a report holds the issues of its severity; errors are listed exactly when it is not valid. */
  lemma {:induction false} IssuesSorted(issues: seq<WorkflowIssue>, severity: Severity, issue: WorkflowIssue)
    ensures issue in WithSeverity(issues, severity) <==> issue in issues && issue.Severity() == severity
    ensures HasError(issues) <==> WithSeverity(issues, Error) != []
  {
    if issues != [] {
      var front, last := issues[..|issues| - 1], issues[|issues| - 1];
      IssuesSorted(front, severity, issue);
      assert issues == front + [last];
      HasErrorSnoc(front, last);
    }
  }

  lemma HasErrorSnoc(front: seq<WorkflowIssue>, last: WorkflowIssue)
    ensures HasError(front + [last]) <==> HasError(front) || last.Severity() == Error
  {
    var all := front + [last];
    assert all[|front|] == last;
    assert forall k :: 0 <= k < |front| ==> all[k] == front[k];
  }

  ghost function OfSeverity(severity: Severity): WorkflowIssue -> bool {
    (issue: WorkflowIssue) => issue.Severity() == severity
  }

  lemma {:induction false} SeverityPicks(issues: seq<WorkflowIssue>, severity: Severity)
    ensures Picks(issues, WithSeverity(issues, severity), Keeping(OfSeverity(severity)))
  {
    if issues != [] {
      var front, last := issues[..|issues| - 1], issues[|issues| - 1];
      SeverityPicks(front, severity);
      PicksLast(issues, last, WithSeverity(front, severity), Keeping(OfSeverity(severity)),
                When(last.Severity() == severity, last));
    }
  }

  // ----- The three lists of a report -----

  ghost predicate FindsBlocking(w: Workflow, registry: Registry, check: Check, issue: WorkflowIssue) {
    Finds(w, registry, check, issue) && !issue.UnexpectedInput? && !issue.UnexpectedOutput?
  }

  ghost predicate FindsAdvisory(w: Workflow, registry: Registry, check: Check, issue: WorkflowIssue) {
    Finds(w, registry, check, issue) && (issue.UnexpectedInput? || issue.UnexpectedOutput?)
  }

  /**
   * What a report lists: the findings of the schema validator alone when there are any, and otherwise,
   * in the order of the checks and each once, the blocking issues and the advisory ones.
   */
  ghost predicate ReportLists(schemaIssues: seq<WorkflowIssue>, w: Workflow, modules: seq<ModuleContract>,
                              report: ValidationReport)
  {
    var registry := BuildRegistry(modules);
    if schemaIssues != [] then
      !report.valid && report.blockingErrors == schemaIssues && report.warnings == [] && report.infos == []
    else
      && Picks(Checks(w), report.blockingErrors, (c: Check, x: WorkflowIssue) => FindsBlocking(w, registry, c, x))
      && Picks(Checks(w), report.warnings, (c: Check, x: WorkflowIssue) => FindsAdvisory(w, registry, c, x))
      && report.infos == []
      && (report.valid <==> report.blockingErrors == [])
  }

  lemma FindsOne(w: Workflow, registry: Registry, c: Check, x: WorkflowIssue, y: WorkflowIssue)
    requires Finds(w, registry, c, x) && Finds(w, registry, c, y)
    ensures x == y
  {
    match c
    case DuplicateCheck(_) =>
    case DeliveryCheck(_) =>
    case ModuleCheck(_) =>
    case ModuleApprovalCheck(_) =>
    case InputKeyCheck(_, _) =>
    case InputValueCheck(_, _) =>
    case OutputKeyCheck(_, _) =>
    case FromCheck(_) =>
    case ToCheck(_) =>
    case ProductionCheck(_) =>
  }

  lemma FindsOnce(w: Workflow, registry: Registry)
    ensures forall c, x, y :: Finding(w, registry)(c, x) && Finding(w, registry)(c, y) ==> x == y
  {
    forall c, x, y | Finding(w, registry)(c, x) && Finding(w, registry)(c, y)
      ensures x == y
    {
      FindsOne(w, registry, c, x, y);
    }
  }

  lemma SeverityListed(w: Workflow, registry: Registry, severity: Severity, finds: (Check, WorkflowIssue) -> bool)
    requires forall c, x :: finds(c, x) <==> Finding(w, registry)(c, x) && OfSeverity(severity)(x)
    ensures Picks(Checks(w), WithSeverity(SemanticIssues(w, registry), severity), finds)
  {
    var issues := SemanticIssues(w, registry);
    IssuesListed(w, registry);
    SeverityPicks(issues, severity);
    FindsOnce(w, registry);
    PicksFewer(Checks(w), issues, Finding(w, registry), WithSeverity(issues, severity), OfSeverity(severity), finds);
  }

  lemma {:induction false} NoInfos(issues: seq<WorkflowIssue>)
    ensures WithSeverity(issues, Info) == []
  {
    if issues != [] {
      NoInfos(issues[..|issues| - 1]);
    }
  }

  /** The report is the one that lists what the checks find. */
  lemma ReportExact(schemaIssues: seq<WorkflowIssue>, w: Workflow, modules: seq<ModuleContract>)
    ensures ReportLists(schemaIssues, w, modules, CreateReport(schemaIssues, w, modules))
  {
    var registry := BuildRegistry(modules);
    var issues := SemanticIssues(w, registry);
    SeverityListed(w, registry, Error, (c: Check, x: WorkflowIssue) => FindsBlocking(w, registry, c, x));
    SeverityListed(w, registry, Warning, (c: Check, x: WorkflowIssue) => FindsAdvisory(w, registry, c, x));
    NoInfos(issues);
    IssuesSorted(issues, Error, SchemaInvalid("", ""));
  }
}
