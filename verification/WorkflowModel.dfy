/** The workflow documents of packages/contracts/src/ai.ts that the validator and the patch engine read. */
module WorkflowModel {
  import opened Prelude

  datatype StepKind = Ingest | Analyze | Generate | Review | Deliver | Store

  /** One entry of a `Record<string, string>`, in enumeration order. */
  datatype Binding = Binding(key: string, value: string)

  datatype Runtime = Runtime(requiredPiece: Option<string>, requiredConnection: Option<string>)

  datatype Step = Step(
    stepId: string,
    moduleCode: string,
    moduleVersion: string,
    title: string,
    description: string,
    kind: StepKind,
    inputBindings: seq<Binding>,
    outputBindings: seq<Binding>,
    requiresApproval: bool,
    runtime: Runtime)

  datatype Condition = OnSuccess | OnFailure | Always | Approved

  datatype Transition = Transition(from: string, to: string, condition: Condition)

  datatype Workflow = Workflow(
    id: string,
    title: string,
    inputs: seq<string>,   // the inputId of every declared input
    outputs: seq<string>,  // the outputId of every declared output
    steps: seq<Step>,
    transitions: seq<Transition>)

  datatype ModuleContract = ModuleContract(
    code: string,
    inputBindings: seq<string>,
    outputBindings: seq<string>,
    requiresApproval: bool)

  /** The ids of a step list, in order. */
  function Ids(steps: seq<Step>): (ids: seq<string>)
    ensures |ids| == |steps|
    ensures forall i {:trigger ids[i]} :: 0 <= i < |steps| ==> ids[i] == steps[i].stepId
  {
    seq(|steps|, i requires 0 <= i < |steps| => steps[i].stepId)
  }

  function IdSet(steps: seq<Step>): set<string> {
    set i | 0 <= i < |steps| :: steps[i].stepId
  }
}
