/** packages/workflow/src/semantic-validator.ts: checking a workflow patch and applying it. */
module WorkflowPatch {
  import opened Prelude
  import opened WorkflowModel
  import opened SemanticValidator

  /** A partial step: the fields an update replaces. */
  datatype StepChanges = StepChanges(
    stepId: Option<string>,
    moduleCode: Option<string>,
    moduleVersion: Option<string>,
    title: Option<string>,
    description: Option<string>,
    kind: Option<StepKind>,
    inputBindings: Option<seq<Binding>>,
    outputBindings: Option<seq<Binding>>,
    requiresApproval: Option<bool>,
    runtime: Option<Runtime>)

  datatype Operation =
    | AddStep(afterStepId: Option<string>, step: Step)
    | UpdateStep(stepId: string, changes: StepChanges)
    | RemoveStep(stepId: string)

  /** Spreads `changes` over `step`. */
  function Merge(step: Step, changes: StepChanges): Step {
    Step(OrElse(changes.stepId, step.stepId),
         OrElse(changes.moduleCode, step.moduleCode),
         OrElse(changes.moduleVersion, step.moduleVersion),
         OrElse(changes.title, step.title),
         OrElse(changes.description, step.description),
         OrElse(changes.kind, step.kind),
         OrElse(changes.inputBindings, step.inputBindings),
         OrElse(changes.outputBindings, step.outputBindings),
         OrElse(changes.requiresApproval, step.requiresApproval),
         OrElse(changes.runtime, step.runtime))
  }

  /** The first position of a step id, or -1. */
  function FindIndex(steps: seq<Step>, id: string): (r: int)
    ensures -1 <= r < |steps|
    ensures 0 <= r ==> steps[r].stepId == id
    ensures forall j :: 0 <= j < (if r < 0 then |steps| else r) ==> steps[j].stepId != id
  {
    if steps == [] then -1
    else if steps[0].stepId == id then 0
    else
      var r := FindIndex(steps[1..], id);
      assert forall j :: 1 <= j < |steps| ==> steps[j] == steps[1..][j - 1];
      if r < 0 then -1 else r + 1
  }

  function ApplyOp(steps: seq<Step>, op: Operation): seq<Step> {
    match op
    case AddStep(after, step) =>
      var index := if after == None then -1 else FindIndex(steps, after.value);
      if index < 0 then [step] + steps else steps[..index + 1] + [step] + steps[index + 1..]
    case UpdateStep(id, changes) =>
      var index := FindIndex(steps, id);
      if index < 0 then steps else steps[index := Merge(steps[index], changes)]
    case RemoveStep(id) =>
      var index := FindIndex(steps, id);
      if index < 0 then steps else steps[..index] + steps[index + 1..]
  }

  function ApplyOps(steps: seq<Step>, ops: seq<Operation>): seq<Step> {
    if ops == [] then steps else ApplyOp(ApplyOps(steps, ops[..|ops| - 1]), ops[|ops| - 1])
  }

  /** The transitions whose two ends are in `ids`, in order. */
  function Keep(transitions: seq<Transition>, ids: set<string>): seq<Transition> {
    if transitions == [] then []
    else
      var t := transitions[0];
      (if t.from in ids && t.to in ids then [t] else []) + Keep(transitions[1..], ids)
  }

  function Patched(w: Workflow, ops: seq<Operation>): Workflow {
    var steps := ApplyOps(w.steps, ops);
    w.(steps := steps, transitions := Keep(w.transitions, IdSet(steps)))
  }

  /** One turn of the loop over the operations. */
  method ApplyOperation(steps: seq<Step>, op: Operation) returns (result: seq<Step>)
    ensures result == ApplyOp(steps, op)
  {
    result := steps;
    match op
    case AddStep(after, step) =>
      var index := if after == None then -1 else FindIndex(steps, after.value);
      if index < 0 {
        result := [step] + steps;
      } else {
        result := steps[..index + 1] + [step] + steps[index + 1..];
      }
    case UpdateStep(id, changes) =>
      var index := FindIndex(steps, id);
      if index >= 0 {
        result := steps[index := Merge(steps[index], changes)];
      }
    case RemoveStep(id) =>
      var index := FindIndex(steps, id);
      if index >= 0 {
        result := steps[..index] + steps[index + 1..];
      }
  }

  method ApplyWorkflowPatch(w: Workflow, ops: seq<Operation>) returns (result: Workflow)
    ensures result == Patched(w, ops)
    ensures result.id == w.id && result.title == w.title && result.inputs == w.inputs && result.outputs == w.outputs
    ensures Picks(w.transitions, result.transitions, Staying(result.steps))
    ensures Distinct(Ids(w.steps)) && Accepted(w.steps, ops) && NoRenames(ops) ==>
              forall i :: 0 <= i < |result.steps| ==> Explained(w.steps, ops, result.steps[i])
  {
    var steps := w.steps;
    for i := 0 to |ops|
      invariant steps == ApplyOps(w.steps, ops[..i])
    {
      assert ops[..i + 1][..i] == ops[..i];
      steps := ApplyOperation(steps, ops[i]);
    }
    assert ops[..|ops|] == ops;
    result := w.(steps := steps, transitions := Keep(w.transitions, IdSet(steps)));
    KeepPicks(w.transitions, steps);
    if Distinct(Ids(w.steps)) && Accepted(w.steps, ops) && NoRenames(ops) {
      PatchContent(w.steps, ops);
    }
  }

  // ----- Checking a patch -----

  /** What an operation is refused for: adding a present id, or naming an absent one. */
  function OperationIssues(ids: set<string>, op: Operation): seq<string> {
    match op
    case AddStep(_, step) =>
      if step.stepId in ids then ["Duplicate stepId in patch add_step: " + step.stepId] else []
    case UpdateStep(id, _) => if id !in ids then ["Patch references missing stepId: " + id] else []
    case RemoveStep(id) => if id !in ids then ["Patch references missing stepId: " + id] else []
  }

  function PatchIssues(ids: set<string>, ops: seq<Operation>): seq<string> {
    if ops == [] then [] else PatchIssues(ids, ops[..|ops| - 1]) + OperationIssues(ids, ops[|ops| - 1])
  }

  predicate AcceptedOperation(ids: set<string>, op: Operation) {
    match op
    case AddStep(_, step) => step.stepId !in ids
    case UpdateStep(id, _) => id in ids
    case RemoveStep(id) => id in ids
  }

  /** Added ids are new and the ids updated or removed are present, all with respect to the original steps. */
  ghost predicate Accepted(steps: seq<Step>, ops: seq<Operation>) {
    forall i :: 0 <= i < |ops| ==> AcceptedOperation(IdSet(steps), ops[i])
  }

  /** One turn of the loop over the operations. */
  method CheckOperation(existing: set<string>, op: Operation) returns (issues: seq<string>)
    ensures issues == OperationIssues(existing, op)
    ensures issues == [] <==> AcceptedOperation(existing, op)
  {
    issues := [];
    match op
    case AddStep(_, step) =>
      if step.stepId in existing {
        issues := ["Duplicate stepId in patch add_step: " + step.stepId];
      }
    case UpdateStep(id, _) =>
      if id !in existing {
        issues := ["Patch references missing stepId: " + id];
      }
    case RemoveStep(id) =>
      if id !in existing {
        issues := ["Patch references missing stepId: " + id];
      }
  }

  method ValidateWorkflowPatch(schemaIssues: seq<string>, ops: seq<Operation>, w: Workflow)
    returns (ok: bool, issues: seq<string>)
    ensures issues == if schemaIssues != [] then schemaIssues else PatchIssues(IdSet(w.steps), ops)
    ensures ok <==> schemaIssues == [] && Accepted(w.steps, ops)
    ensures schemaIssues == [] ==> Picks(ops, issues, Refusing(w.steps))
  {
    if schemaIssues != [] {
      return false, schemaIssues;
    }
    issues := [];
    var existing := IdSet(w.steps);
    for i := 0 to |ops|
      invariant issues == PatchIssues(existing, ops[..i])
      invariant issues == [] <==> forall j :: 0 <= j < i ==> AcceptedOperation(existing, ops[j])
    {
      assert ops[..i + 1][..i] == ops[..i];
      var found := CheckOperation(existing, ops[i]);
      issues := issues + found;
    }
    assert ops[..|ops|] == ops;
    ok := issues == [];
    PatchMessages(w.steps, ops);
  }

  // ----- Composition -----

  lemma {:induction false} ApplyOpsConcat(steps: seq<Step>, p1: seq<Operation>, p2: seq<Operation>)
    ensures ApplyOps(steps, p1 + p2) == ApplyOps(ApplyOps(steps, p1), p2)
    decreases |p2|
  {
    if p2 == [] {
      assert p1 + p2 == p1;
    } else {
      var n := |p2| - 1;
      assert (p1 + p2)[..|p1 + p2| - 1] == p1 + p2[..n];
      ApplyOpsConcat(steps, p1, p2[..n]);
    }
  }

  lemma {:induction false} KeepKeeps(ts: seq<Transition>, ids: set<string>, t: Transition)
    ensures t in Keep(ts, ids) <==> t in ts && t.from in ids && t.to in ids
  {
    if ts != [] {
      KeepKeeps(ts[1..], ids, t);
    }
  }

  lemma {:induction false} KeepTwice(ts: seq<Transition>, a: set<string>, b: set<string>)
    ensures Keep(Keep(ts, a), b) == Keep(ts, a * b)
  {
    if ts != [] {
      KeepTwice(ts[1..], a, b);
      var t := ts[0];
      if t.from in a && t.to in a {
        assert ([t] + Keep(ts[1..], a))[1..] == Keep(ts[1..], a);
      } else {
        assert Keep(ts, a) == Keep(ts[1..], a);
      }
    }
  }

  lemma {:induction false} KeepSame(ts: seq<Transition>, a: set<string>, b: set<string>)
    requires forall t :: t in ts && t.from in b && t.to in b ==> t.from in a && t.to in a
    ensures Keep(ts, a * b) == Keep(ts, b)
  {
    if ts != [] {
      KeepSame(ts[1..], a, b);
    }
  }

  /** Every transition that survives both patches also survived the first one. */
  ghost predicate EndsStay(w: Workflow, p1: seq<Operation>, p2: seq<Operation>) {
    var middle := IdSet(ApplyOps(w.steps, p1));
    var last := IdSet(ApplyOps(w.steps, p1 + p2));
    forall t :: t in w.transitions && t.from in last && t.to in last ==> t.from in middle && t.to in middle
  }

  /**
   * Two patches one after the other against the two as one patch: the steps agree always; the
   * staged transitions are those whose ends are present both in between and at the end, so the
   * transitions agree exactly when no surviving end was absent in between.
   */
  lemma PatchComposition(w: Workflow, p1: seq<Operation>, p2: seq<Operation>)
    ensures Patched(Patched(w, p1), p2).steps == Patched(w, p1 + p2).steps
    ensures Patched(Patched(w, p1), p2).transitions ==
            Keep(w.transitions, IdSet(Patched(w, p1).steps) * IdSet(Patched(w, p1 + p2).steps))
    ensures Patched(Patched(w, p1), p2) == Patched(w, p1 + p2) <==> EndsStay(w, p1, p2)
  {
    ApplyOpsConcat(w.steps, p1, p2);
    var a, b := IdSet(ApplyOps(w.steps, p1)), IdSet(ApplyOps(w.steps, p1 + p2));
    KeepTwice(w.transitions, a, b);
    if EndsStay(w, p1, p2) {
      KeepSame(w.transitions, a, b);
    } else {
      var t :| t in w.transitions && t.from in b && t.to in b && !(t.from in a && t.to in a);
      KeepKeeps(w.transitions, b, t);
      KeepKeeps(w.transitions, a * b, t);
    }
  }

  // ----- Frame -----

  /** The ids an operation can add to, change in or take from the list of steps. */
  function Mentioned(op: Operation): set<string> {
    match op
    case AddStep(_, step) => {step.stepId}
    case UpdateStep(id, changes) => {id} + (if changes.stepId.Some? then {changes.stepId.value} else {})
    case RemoveStep(id) => {id}
  }

  function AllMentioned(ops: seq<Operation>): set<string> {
    set i, id | 0 <= i < |ops| && id in Mentioned(ops[i]) :: id
  }

  /** The steps whose ids are not in `ids`, in order. */
  function Others(steps: seq<Step>, ids: set<string>): seq<Step> {
    if steps == [] then []
    else (if steps[0].stepId !in ids then [steps[0]] else []) + Others(steps[1..], ids)
  }

  lemma {:induction false} OthersConcat(a: seq<Step>, b: seq<Step>, ids: set<string>)
    ensures Others(a + b, ids) == Others(a, ids) + Others(b, ids)
  {
    if a == [] {
      assert a + b == b;
    } else {
      assert (a + b)[1..] == a[1..] + b;
      OthersConcat(a[1..], b, ids);
    }
  }

  /** Replacing the part `mid` of a list by another part with no other steps leaves the others alone. */
  lemma OthersSwap(a: seq<Step>, mid: seq<Step>, mid': seq<Step>, b: seq<Step>, ids: set<string>)
    requires Others(mid, ids) == Others(mid', ids)
    ensures Others(a + mid + b, ids) == Others(a + mid' + b, ids)
  {
    OthersConcat(a, mid, ids);
    OthersConcat(a, mid', ids);
    OthersConcat(a + mid, b, ids);
    OthersConcat(a + mid', b, ids);
  }

  lemma AddFrame(steps: seq<Step>, after: Option<string>, step: Step, ids: set<string>)
    requires step.stepId in ids
    ensures Others(ApplyOp(steps, AddStep(after, step)), ids) == Others(steps, ids)
  {
    var k := (if after == None then -1 else FindIndex(steps, after.value)) + 1;
    var front, back := steps[..k], steps[k..];
    assert Others([step], ids) == Others([], ids);
    OthersSwap(front, [step], [], back, ids);
    assert front + [] + back == steps;
    assert ApplyOp(steps, AddStep(after, step)) == front + [step] + back;
  }

  /** Replacing one step by nothing or by another one, both with ids that do not count. */
  lemma ReplaceFrame(front: seq<Step>, x: Step, replacement: seq<Step>, back: seq<Step>, ids: set<string>)
    requires x.stepId in ids && |replacement| <= 1
    requires forall i :: 0 <= i < |replacement| ==> replacement[i].stepId in ids
    ensures Others(front + replacement + back, ids) == Others(front + [x] + back, ids)
  {
    assert Others(replacement, ids) == [] && Others([x], ids) == [];
    OthersSwap(front, replacement, [x], back, ids);
  }

  lemma Around(steps: seq<Step>, i: nat)
    requires i < |steps|
    ensures steps == steps[..i] + [steps[i]] + steps[i + 1..]
    ensures forall x :: steps[i := x] == steps[..i] + [x] + steps[i + 1..]
    ensures steps[..i] + [] + steps[i + 1..] == steps[..i] + steps[i + 1..]
  {
  }

  lemma OpFrame(steps: seq<Step>, op: Operation, ids: set<string>)
    requires Mentioned(op) <= ids
    ensures Others(ApplyOp(steps, op), ids) == Others(steps, ids)
  {
    match op
    case AddStep(after, step) =>
      AddFrame(steps, after, step, ids);
    case UpdateStep(id, changes) =>
      var index := FindIndex(steps, id);
      if index >= 0 {
        var merged := Merge(steps[index], changes);
        Around(steps, index);
        ReplaceFrame(steps[..index], steps[index], [merged], steps[index + 1..], ids);
      }
    case RemoveStep(id) =>
      var index := FindIndex(steps, id);
      if index >= 0 {
        Around(steps, index);
        ReplaceFrame(steps[..index], steps[index], [], steps[index + 1..], ids);
      }
  }

  /** No operation disturbs a step it does not mention: same content, same multiplicity, same order. */
  lemma {:induction false} OpsFrame(steps: seq<Step>, ops: seq<Operation>, ids: set<string>)
    requires AllMentioned(ops) <= ids
    ensures Others(ApplyOps(steps, ops), ids) == Others(steps, ids)
  {
    if ops != [] {
      var n := |ops| - 1;
      forall id | id in AllMentioned(ops[..n])
        ensures id in AllMentioned(ops)
      {
        var i :| 0 <= i < n && id in Mentioned(ops[..n][i]);
        assert id in Mentioned(ops[i]);
      }
      assert forall id :: id in Mentioned(ops[n]) ==> id in AllMentioned(ops);
      OpsFrame(steps, ops[..n], ids);
      OpFrame(ApplyOps(steps, ops[..n]), ops[n], ids);
    }
  }

  function UpdatedOrRemoved(ops: seq<Operation>): set<string> {
    set i | 0 <= i < |ops| && (ops[i].UpdateStep? || ops[i].RemoveStep?) :: ops[i].stepId
  }

  /** No update replaces a step's id by another one. */
  ghost predicate NoRenames(ops: seq<Operation>) {
    forall i :: 0 <= i < |ops| && ops[i].UpdateStep? && ops[i].changes.stepId.Some? ==>
      ops[i].changes.stepId.value == ops[i].stepId
  }

  lemma {:induction false} OthersSame(steps: seq<Step>, a: set<string>, b: set<string>)
    requires forall i :: 0 <= i < |steps| ==> (steps[i].stepId in a <==> steps[i].stepId in b)
    ensures Others(steps, a) == Others(steps, b)
  {
    if steps != [] {
      OthersSame(steps[1..], a, b);
    }
  }

  /**
   * After an accepted patch without renames, what the patch does not mention is exactly what it
   * neither updated nor removed, unchanged and in the original order.
   */
  lemma PatchFrame(w: Workflow, ops: seq<Operation>)
    requires Accepted(w.steps, ops) && NoRenames(ops)
    ensures Others(Patched(w, ops).steps, AllMentioned(ops)) == Others(w.steps, UpdatedOrRemoved(ops))
  {
    OpsFrame(w.steps, ops, AllMentioned(ops));
    forall k | 0 <= k < |w.steps|
      ensures w.steps[k].stepId in AllMentioned(ops) <==> w.steps[k].stepId in UpdatedOrRemoved(ops)
    {
      var id := w.steps[k].stepId;
      if id in AllMentioned(ops) {
        var i :| 0 <= i < |ops| && id in Mentioned(ops[i]);
        assert id in IdSet(w.steps);
      }
      if id in UpdatedOrRemoved(ops) {
        var i :| 0 <= i < |ops| && (ops[i].UpdateStep? || ops[i].RemoveStep?) && ops[i].stepId == id;
        assert id in Mentioned(ops[i]);
      }
    }
    OthersSame(w.steps, AllMentioned(ops), UpdatedOrRemoved(ops));
  }

  // ----- Accounting of ids -----

  function AddedIds(ops: seq<Operation>): seq<string> {
    if ops == [] then []
    else AddedIds(ops[..|ops| - 1]) + (var op := ops[|ops| - 1]; if op.AddStep? then [op.step.stepId] else [])
  }

  function RemovedIds(ops: seq<Operation>): set<string> {
    if ops == [] then {}
    else RemovedIds(ops[..|ops| - 1]) + (var op := ops[|ops| - 1]; if op.RemoveStep? then {op.stepId} else {})
  }

  /** The ids of a step list with their multiplicities. */
  function IdBag(steps: seq<Step>): multiset<string> {
    multiset(Ids(steps))
  }

  lemma IdBagConcat(a: seq<Step>, b: seq<Step>)
    ensures IdBag(a + b) == IdBag(a) + IdBag(b)
  {
    assert Ids(a + b) == Ids(a) + Ids(b);
  }

  lemma IdBagAround(steps: seq<Step>, i: nat)
    requires i < |steps|
    ensures IdBag(steps) == IdBag(steps[..i]) + multiset{steps[i].stepId} + IdBag(steps[i + 1..])
  {
    assert steps == steps[..i] + [steps[i]] + steps[i + 1..];
    IdBagConcat(steps[..i], [steps[i]]);
    IdBagConcat(steps[..i] + [steps[i]], steps[i + 1..]);
    assert Ids([steps[i]]) == [steps[i].stepId];
  }

  lemma FoundIffPresent(steps: seq<Step>, id: string)
    ensures FindIndex(steps, id) >= 0 <==> id in IdBag(steps)
  {
    if FindIndex(steps, id) >= 0 {
      assert Ids(steps)[FindIndex(steps, id)] == id;
    }
  }

  lemma IdBagInsert(front: seq<Step>, step: Step, back: seq<Step>)
    ensures IdBag(front + [step] + back) == IdBag(front + back) + multiset{step.stepId}
  {
    IdBagConcat(front, [step]);
    IdBagConcat(front + [step], back);
    IdBagConcat(front, back);
    assert Ids([step]) == [step.stepId];
  }

  lemma AddIds(steps: seq<Step>, after: Option<string>, step: Step)
    ensures IdBag(ApplyOp(steps, AddStep(after, step))) == IdBag(steps) + multiset{step.stepId}
  {
    var k := (if after == None then -1 else FindIndex(steps, after.value)) + 1;
    assert ApplyOp(steps, AddStep(after, step)) == steps[..k] + [step] + steps[k..] by {
      assert [] + [step] + steps == [step] + steps;
    }
    assert steps[..k] + steps[k..] == steps;
    IdBagInsert(steps[..k], step, steps[k..]);
  }

  lemma UpdateIds(steps: seq<Step>, id: string, changes: StepChanges)
    requires changes.stepId.Some? ==> changes.stepId.value == id
    ensures IdBag(ApplyOp(steps, UpdateStep(id, changes))) == IdBag(steps)
  {
    assert Ids(ApplyOp(steps, UpdateStep(id, changes))) == Ids(steps);
  }

  lemma IdBagWithout(steps: seq<Step>, i: nat)
    requires i < |steps|
    ensures IdBag(steps[..i] + steps[i + 1..]) == IdBag(steps) - multiset{steps[i].stepId}
  {
    IdBagAround(steps, i);
    IdBagConcat(steps[..i], steps[i + 1..]);
  }

  lemma WithoutAbsent(bag: multiset<string>, id: string)
    requires id !in bag
    ensures bag - multiset{id} == bag
  {
  }

  lemma RemoveIds(steps: seq<Step>, id: string)
    ensures IdBag(ApplyOp(steps, RemoveStep(id))) == IdBag(steps) - multiset{id}
  {
    var index := FindIndex(steps, id);
    if index >= 0 {
      assert ApplyOp(steps, RemoveStep(id)) == steps[..index] + steps[index + 1..];
      IdBagWithout(steps, index);
    } else {
      assert ApplyOp(steps, RemoveStep(id)) == steps;
      FoundIffPresent(steps, id);
      WithoutAbsent(IdBag(steps), id);
    }
  }

  lemma BagIsSet(steps: seq<Step>)
    requires Distinct(Ids(steps))
    ensures IdBag(steps) == multiset(IdSet(steps))
  {
    DistinctIffSingle(Ids(steps));
    forall id
      ensures IdBag(steps)[id] == multiset(IdSet(steps))[id]
    {
      if i :| 0 <= i < |steps| && steps[i].stepId == id {
        assert Ids(steps)[i] == id;
      }
      assert id in IdBag(steps) <==> id in Ids(steps);
    }
  }

  lemma {:induction false} DistinctIffSingle<T>(s: seq<T>)
    ensures Distinct(s) <==> forall x :: multiset(s)[x] <= 1
  {
    if s != [] {
      var n := |s| - 1;
      assert s == s[..n] + [s[n]];
      DistinctIffSingle(s[..n]);
      if Distinct(s[..n]) {
        assert multiset(s)[s[n]] == multiset(s[..n])[s[n]] + 1;
        assert s[n] in multiset(s[..n]) <==> s[n] in s[..n];
      } else {
        var x :| multiset(s[..n])[x] > 1;
        assert multiset(s)[x] > 1;
      }
    }
  }

  lemma {:induction false} AddedAreNew(steps: seq<Step>, ops: seq<Operation>)
    requires Accepted(steps, ops)
    ensures forall id :: id in AddedIds(ops) ==> id !in IdSet(steps)
  {
    if ops != [] {
      assert Accepted(steps, ops[..|ops| - 1]);
      AddedAreNew(steps, ops[..|ops| - 1]);
    }
  }

  lemma TakeOne(kept: set<string>, added: multiset<string>, id: string)
    requires id !in added
    ensures multiset(kept) + added - multiset{id} == multiset(kept - {id}) + added
  {
    forall x
      ensures (multiset(kept) + added - multiset{id})[x] == (multiset(kept - {id}) + added)[x]
    {
    }
  }

  /** One operation of an accepted patch, on a list that holds `kept` once and `added` besides. */
  lemma OpIds(steps: seq<Step>, op: Operation, kept: set<string>, added: multiset<string>)
    requires IdBag(steps) == multiset(kept) + added
    requires op.UpdateStep? && op.changes.stepId.Some? ==> op.changes.stepId.value == op.stepId
    requires op.RemoveStep? ==> op.stepId !in added
    ensures IdBag(ApplyOp(steps, op)) ==
            multiset(if op.RemoveStep? then kept - {op.stepId} else kept)
            + if op.AddStep? then added + multiset{op.step.stepId} else added
  {
    match op
    case AddStep(after, step) =>
      AddIds(steps, after, step);
    case UpdateStep(id, changes) =>
      UpdateIds(steps, id, changes);
    case RemoveStep(id) =>
      RemoveIds(steps, id);
      TakeOne(kept, added, id);
  }

  lemma OneMoreId(ids: set<string>, ops: seq<Operation>)
    requires ops != []
    ensures var before, op := ops[..|ops| - 1], ops[|ops| - 1];
            && ids - RemovedIds(ops) ==
               (if op.RemoveStep? then ids - RemovedIds(before) - {op.stepId} else ids - RemovedIds(before))
            && multiset(AddedIds(ops)) ==
               multiset(AddedIds(before)) + if op.AddStep? then multiset{op.step.stepId} else multiset{}
  {
  }

  /** The ids after one more operation. */
  lemma OpsIdsStep(steps: seq<Step>, ops: seq<Operation>)
    requires ops != [] && Accepted(steps, ops) && NoRenames(ops)
    requires var before := ops[..|ops| - 1];
             IdBag(ApplyOps(steps, before)) == multiset(IdSet(steps) - RemovedIds(before)) + multiset(AddedIds(before))
    ensures IdBag(ApplyOps(steps, ops)) == multiset(IdSet(steps) - RemovedIds(ops)) + multiset(AddedIds(ops))
  {
    var before, op := ops[..|ops| - 1], ops[|ops| - 1];
    assert Accepted(steps, before);
    AddedAreNew(steps, before);
    var kept, added := IdSet(steps) - RemovedIds(before), AddedIds(before);
    assert op.RemoveStep? ==> op.stepId !in multiset(added) by {
      assert op.RemoveStep? ==> op.stepId in IdSet(steps) && op.stepId !in added;
    }
    OpIds(ApplyOps(steps, before), op, kept, multiset(added));
    OneMoreId(IdSet(steps), ops);
  }

  lemma {:induction false} OpsIds(steps: seq<Step>, ops: seq<Operation>)
    requires Distinct(Ids(steps)) && Accepted(steps, ops) && NoRenames(ops)
    ensures IdBag(ApplyOps(steps, ops)) == multiset(IdSet(steps) - RemovedIds(ops)) + multiset(AddedIds(ops))
  {
    if ops == [] {
      BagIsSet(steps);
      assert IdSet(steps) - RemovedIds(ops) == IdSet(steps);
    } else {
      var before := ops[..|ops| - 1];
      assert Accepted(steps, before) && NoRenames(before);
      OpsIds(steps, before);
      OpsIdsStep(steps, ops);
    }
  }

  /**
   * Conservation of ids: an accepted patch without renames ends with the original ids it did not
   * remove and every id it added, each as often as it was added. Hence the ids of the result are
   * distinct exactly when the patch adds no id twice.
   */
  lemma IdAccounting(w: Workflow, ops: seq<Operation>)
    requires Distinct(Ids(w.steps)) && Accepted(w.steps, ops) && NoRenames(ops)
    ensures IdBag(Patched(w, ops).steps) == multiset(IdSet(w.steps) - RemovedIds(ops)) + multiset(AddedIds(ops))
    ensures Distinct(Ids(Patched(w, ops).steps)) <==> Distinct(AddedIds(ops))
  {
    OpsIds(w.steps, ops);
    AddedAreNew(w.steps, ops);
    var result, kept, added := Ids(ApplyOps(w.steps, ops)), IdSet(w.steps) - RemovedIds(ops), AddedIds(ops);
    DistinctIffSingle(result);
    DistinctIffSingle(added);
    forall id
      ensures multiset(result)[id] <= 1 <==> multiset(added)[id] <= 1
    {
      if id in kept {
        assert id !in added;
        assert multiset(added)[id] == 0;
      }
    }
  }

  // ----- Composition again: conditions on the operations alone -----

  function AddedSet(ops: seq<Operation>): set<string> {
    set id | id in AddedIds(ops)
  }

  /** The ids a patch leaves when it starts from `ids`. */
  function IdsAfter(ids: set<string>, ops: seq<Operation>): set<string> {
    ids - RemovedIds(ops) + AddedSet(ops)
  }

  lemma PatchedIds(steps: seq<Step>, ops: seq<Operation>)
    requires Distinct(Ids(steps)) && Accepted(steps, ops) && NoRenames(ops)
    ensures IdSet(ApplyOps(steps, ops)) == IdsAfter(IdSet(steps), ops)
  {
    OpsIds(steps, ops);
    var result := ApplyOps(steps, ops);
    forall id
      ensures id in IdSet(result) <==> id in IdsAfter(IdSet(steps), ops)
    {
      if id in IdSet(result) {
        var i :| 0 <= i < |result| && result[i].stepId == id;
        assert Ids(result)[i] == id;
      }
      assert id in IdBag(result) <==> id in Ids(result);
      assert id in multiset(AddedIds(ops)) <==> id in AddedIds(ops);
    }
  }

  lemma {:induction false} OpsOfConcat(p1: seq<Operation>, p2: seq<Operation>)
    ensures RemovedIds(p1 + p2) == RemovedIds(p1) + RemovedIds(p2)
    ensures AddedIds(p1 + p2) == AddedIds(p1) + AddedIds(p2)
    decreases |p2|
  {
    if p2 == [] {
      assert p1 + p2 == p1;
    } else {
      var n := |p2| - 1;
      assert (p1 + p2)[..|p1 + p2| - 1] == p1 + p2[..n];
      OpsOfConcat(p1, p2[..n]);
    }
  }

  /** An end of a transition that the first patch removes and the second one adds again. */
  predicate Returns(p1: seq<Operation>, p2: seq<Operation>, id: string) {
    id in RemovedIds(p1) && id in AddedIds(p2)
  }

  /** A step of the original workflow with this id is there after both patches. */
  predicate EndsPresent(p1: seq<Operation>, p2: seq<Operation>, id: string) {
    id in AddedIds(p2) || (id !in RemovedIds(p1) && id !in RemovedIds(p2))
  }

  /** A transition that is lost in between although both of its ends are there at the end. */
  ghost predicate LostBetween(p1: seq<Operation>, p2: seq<Operation>, t: Transition) {
    && EndsPresent(p1, p2, t.from) && EndsPresent(p1, p2, t.to)
    && (Returns(p1, p2, t.from) || Returns(p1, p2, t.to))
  }

  /** Every operation of the second patch is accepted on the ids that the first one leaves. */
  ghost predicate AcceptedNext(steps: seq<Step>, p1: seq<Operation>, p2: seq<Operation>) {
    forall i :: 0 <= i < |p2| ==> AcceptedOperation(IdsAfter(IdSet(steps), p1), p2[i])
  }

  /** Where an original id is in between and at the end, read off the operations. */
  lemma OriginalIds(w: Workflow, p1: seq<Operation>, p2: seq<Operation>, id: string)
    requires Distinct(Ids(w.steps)) && Accepted(w.steps, p1) && NoRenames(p1) && Distinct(AddedIds(p1))
    requires AcceptedNext(w.steps, p1, p2) && NoRenames(p2)
    requires id in IdSet(w.steps)
    ensures id in IdSet(ApplyOps(w.steps, p1)) <==> id !in RemovedIds(p1)
    ensures id in IdSet(ApplyOps(w.steps, p1 + p2)) <==> EndsPresent(p1, p2, id)
    ensures id in AddedIds(p2) ==> id in RemovedIds(p1)
  {
    PatchedIds(w.steps, p1);
    IdAccounting(w, p1);
    AddedAreNew(w.steps, p1);
    ApplyOpsConcat(w.steps, p1, p2);
    var middle := ApplyOps(w.steps, p1);
    assert Accepted(middle, p2);
    PatchedIds(middle, p2);
    AddedAreNew(middle, p2);
  }

  /**
   * When two patches without renames, each accepted where it is applied, agree with the two as one:
   * exactly when no transition has an end that the first removes and the second adds again, while
   * both of its ends are present at the end. All of it can be read off the patches before applying them.
   */
  lemma PatchesComposeIff(w: Workflow, p1: seq<Operation>, p2: seq<Operation>)
    requires Distinct(Ids(w.steps)) && TransitionsSound(w)
    requires Accepted(w.steps, p1) && NoRenames(p1) && Distinct(AddedIds(p1))
    requires AcceptedNext(w.steps, p1, p2) && NoRenames(p2)
    ensures Patched(Patched(w, p1), p2) == Patched(w, p1 + p2) <==>
            forall t :: t in w.transitions ==> !LostBetween(p1, p2, t)
  {
    PatchComposition(w, p1, p2);
    var middle, last := IdSet(ApplyOps(w.steps, p1)), IdSet(ApplyOps(w.steps, p1 + p2));
    forall t | t in w.transitions
      ensures LostBetween(p1, p2, t) <==>
              t.from in last && t.to in last && !(t.from in middle && t.to in middle)
    {
      EndsAreIds(w, t);
      OriginalIds(w, p1, p2, t.from);
      OriginalIds(w, p1, p2, t.to);
    }
  }

  lemma EndsAreIds(w: Workflow, t: Transition)
    requires TransitionsSound(w) && t in w.transitions
    ensures t.from in IdSet(w.steps) && t.to in IdSet(w.steps)
  {
    var i :| 0 <= i < |w.transitions| && w.transitions[i] == t;
    assert IsStepId(w.steps, t.from) && IsStepId(w.steps, t.to);
  }

  /** Operations that one check accepts together can always be applied in two parts. */
  lemma AcceptedTogetherCompose(w: Workflow, p1: seq<Operation>, p2: seq<Operation>)
    requires Distinct(Ids(w.steps)) && TransitionsSound(w)
    requires Accepted(w.steps, p1 + p2) && NoRenames(p1 + p2)
    ensures Patched(Patched(w, p1), p2) == Patched(w, p1 + p2)
  {
    assert forall i :: 0 <= i < |p1| ==> (p1 + p2)[i] == p1[i];
    PatchComposition(w, p1, p2);
    PatchedIds(w.steps, p1);
    PatchedIds(w.steps, p1 + p2);
    AddedAreNew(w.steps, p1 + p2);
    OpsOfConcat(p1, p2);
    forall t | t in w.transitions
      ensures t.from in IdSet(w.steps) && t.to in IdSet(w.steps)
    {
      EndsAreIds(w, t);
    }
  }

  // ----- No dangling transitions -----

  /** Whatever the workflow and the patch, validating the patched workflow reports no missing transition end. */
  lemma PatchedNeverDangles(w: Workflow, ops: seq<Operation>, registry: Registry, issue: WorkflowIssue)
    requires issue in SemanticIssues(Patched(w, ops), registry)
    ensures !issue.MissingFrom? && !issue.MissingTo?
  {
    var result := Patched(w, ops);
    IssuesExact(result, registry, issue);
    forall i | 0 <= i < |result.transitions|
      ensures HasStep(result, result.transitions[i].from) && HasStep(result, result.transitions[i].to)
    {
      KeepKeeps(w.transitions, IdSet(result.steps), result.transitions[i]);
    }
    var check :| check in Checks(result) && Finds(result, registry, check, issue);
    NotDangling(result, registry, check, issue);
  }

  lemma NotDangling(w: Workflow, registry: Registry, check: Check, issue: WorkflowIssue)
    requires Finds(w, registry, check, issue)
    requires forall i :: 0 <= i < |w.transitions| ==>
               HasStep(w, w.transitions[i].from) && HasStep(w, w.transitions[i].to)
    ensures !issue.MissingFrom? && !issue.MissingTo?
  {
  }

  // ----- What each operation does, field by field -----

  /** The new value of a field: the given one, or the old one when none is given. */
  ghost predicate Becomes<T>(change: Option<T>, before: T, after: T) {
    match change
    case None => after == before
    case Some(value) => after == value
  }

  ghost predicate Changed(before: Step, changes: StepChanges, after: Step) {
    && Becomes(changes.stepId, before.stepId, after.stepId)
    && Becomes(changes.moduleCode, before.moduleCode, after.moduleCode)
    && Becomes(changes.moduleVersion, before.moduleVersion, after.moduleVersion)
    && Becomes(changes.title, before.title, after.title)
    && Becomes(changes.description, before.description, after.description)
    && Becomes(changes.kind, before.kind, after.kind)
    && Becomes(changes.inputBindings, before.inputBindings, after.inputBindings)
    && Becomes(changes.outputBindings, before.outputBindings, after.outputBindings)
    && Becomes(changes.requiresApproval, before.requiresApproval, after.requiresApproval)
    && Becomes(changes.runtime, before.runtime, after.runtime)
  }

  /** The first step with the id. */
  ghost predicate IsFirst(steps: seq<Step>, id: string, i: int) {
    0 <= i < |steps| && steps[i].stepId == id && forall j :: 0 <= j < i ==> steps[j].stepId != id
  }

  /** An update changes the given fields of the first step with the id, and nothing else. */
  lemma UpdateExact(steps: seq<Step>, id: string, changes: StepChanges)
    ensures var after := ApplyOp(steps, UpdateStep(id, changes));
            && |after| == |steps|
            && forall i :: 0 <= i < |steps| ==>
                 if IsFirst(steps, id, i) then Changed(steps[i], changes, after[i]) else after[i] == steps[i]
  {
  }

  /** A removal takes the first step with the id, and nothing else. */
  lemma RemoveExact(steps: seq<Step>, id: string)
    ensures forall i :: IsFirst(steps, id, i) ==> ApplyOp(steps, RemoveStep(id)) == steps[..i] + steps[i + 1..]
    ensures (forall i :: 0 <= i < |steps| ==> steps[i].stepId != id) ==> ApplyOp(steps, RemoveStep(id)) == steps
  {
  }

  /** The last value that the updates of a step give to a field, or the original one. */
  ghost function LastGiven<T>(ops: seq<Operation>, id: string, field: StepChanges -> Option<T>, original: T): T {
    if ops == [] then original
    else
      var op := ops[|ops| - 1];
      if op.UpdateStep? && op.stepId == id && field(op.changes).Some? then field(op.changes).value
      else LastGiven(ops[..|ops| - 1], id, field, original)
  }

  /** `after` is the step `original` with the last values given for its fields. */
  ghost predicate Carries(original: Step, ops: seq<Operation>, after: Step) {
    var id := original.stepId;
    && after.stepId == id
    && after.moduleCode == LastGiven(ops, id, (c: StepChanges) => c.moduleCode, original.moduleCode)
    && after.moduleVersion == LastGiven(ops, id, (c: StepChanges) => c.moduleVersion, original.moduleVersion)
    && after.title == LastGiven(ops, id, (c: StepChanges) => c.title, original.title)
    && after.description == LastGiven(ops, id, (c: StepChanges) => c.description, original.description)
    && after.kind == LastGiven(ops, id, (c: StepChanges) => c.kind, original.kind)
    && after.inputBindings == LastGiven(ops, id, (c: StepChanges) => c.inputBindings, original.inputBindings)
    && after.outputBindings == LastGiven(ops, id, (c: StepChanges) => c.outputBindings, original.outputBindings)
    && after.requiresApproval == LastGiven(ops, id, (c: StepChanges) => c.requiresApproval, original.requiresApproval)
    && after.runtime == LastGiven(ops, id, (c: StepChanges) => c.runtime, original.runtime)
  }

  /** A step of the result: an original one with its last values, or an added one as it was added. */
  ghost predicate Explained(steps: seq<Step>, ops: seq<Operation>, after: Step) {
    || (exists i :: 0 <= i < |steps| && Carries(steps[i], ops, after))
    || exists k :: 0 <= k < |ops| && ops[k].AddStep? && ops[k].step == after
  }

  lemma CarriesUpdate(original: Step, ops: seq<Operation>, before: Step, after: Step)
    requires ops != [] && ops[|ops| - 1].UpdateStep? && ops[|ops| - 1].stepId == original.stepId
    requires var changes := ops[|ops| - 1].changes;
             changes.stepId.Some? ==> changes.stepId.value == original.stepId
    requires Carries(original, ops[..|ops| - 1], before) && Changed(before, ops[|ops| - 1].changes, after)
    ensures Carries(original, ops, after)
  {
  }

  lemma CarriesOther(original: Step, ops: seq<Operation>, after: Step)
    requires ops != [] && !(ops[|ops| - 1].UpdateStep? && ops[|ops| - 1].stepId == original.stepId)
    requires Carries(original, ops[..|ops| - 1], after)
    ensures Carries(original, ops, after)
  {
  }

  /** A step that the last operation leaves as it was stays explained. */
  lemma ExplainedOn(steps: seq<Step>, ops: seq<Operation>, after: Step)
    requires ops != [] && Explained(steps, ops[..|ops| - 1], after)
    requires !(ops[|ops| - 1].UpdateStep? && ops[|ops| - 1].stepId == after.stepId)
    ensures Explained(steps, ops, after)
  {
    var before := ops[..|ops| - 1];
    if i :| 0 <= i < |steps| && Carries(steps[i], before, after) {
      CarriesOther(steps[i], ops, after);
    } else {
      var k :| 0 <= k < |before| && before[k].AddStep? && before[k].step == after;
      assert ops[k] == before[k];
    }
  }

  /** Two steps with one id are counted twice. */
  lemma CountedTwice(steps: seq<Step>, i: nat, j: nat)
    requires i < j < |steps| && steps[i].stepId == steps[j].stepId
    ensures IdBag(steps)[steps[i].stepId] >= 2
  {
    IdBagAround(steps, j);
    assert Ids(steps[..j])[i] == steps[i].stepId;
    assert steps[i].stepId in Ids(steps[..j]);
    assert IdBag(steps[..j])[steps[i].stepId] >= 1;
  }

  /** An original id occurs at most once while an accepted patch is applied, and not once it is removed. */
  lemma OriginalOnce(steps: seq<Step>, ops: seq<Operation>, id: string)
    requires Distinct(Ids(steps)) && Accepted(steps, ops) && NoRenames(ops) && id in IdSet(steps)
    ensures IdBag(ApplyOps(steps, ops))[id] <= 1
    ensures id in RemovedIds(ops) ==> id !in IdBag(ApplyOps(steps, ops))
  {
    OpsIds(steps, ops);
    AddedAreNew(steps, ops);
    assert multiset(AddedIds(ops))[id] == 0;
  }

  lemma UpdatedExplained(steps: seq<Step>, ops: seq<Operation>, i: nat)
    requires ops != [] && ops[|ops| - 1].UpdateStep?
    requires Distinct(Ids(steps)) && Accepted(steps, ops) && NoRenames(ops)
    requires var before := ApplyOps(steps, ops[..|ops| - 1]);
             i < |before| && Explained(steps, ops[..|ops| - 1], before[i])
    ensures |ApplyOps(steps, ops)| == |ApplyOps(steps, ops[..|ops| - 1])|
    ensures Explained(steps, ops, ApplyOps(steps, ops)[i])
  {
    var front, op := ops[..|ops| - 1], ops[|ops| - 1];
    var before, after := ApplyOps(steps, front), ApplyOps(steps, ops);
    assert Accepted(steps, front) && NoRenames(front);
    UpdateExact(before, op.stepId, op.changes);
    if before[i].stepId == op.stepId {
      OriginalOnce(steps, front, op.stepId);
      forall j | 0 <= j < i
        ensures before[j].stepId != op.stepId
      {
        if before[j].stepId == op.stepId {
          CountedTwice(before, j, i);
          assert false;
        }
      }
      UpdatedCarries(steps, ops, before[i], after[i]);
    } else {
      ExplainedOn(steps, ops, before[i]);
    }
  }

  lemma UpdatedCarries(steps: seq<Step>, ops: seq<Operation>, before: Step, after: Step)
    requires ops != [] && ops[|ops| - 1].UpdateStep? && Accepted(steps, ops) && NoRenames(ops)
    requires before.stepId == ops[|ops| - 1].stepId && Explained(steps, ops[..|ops| - 1], before)
    requires Changed(before, ops[|ops| - 1].changes, after)
    ensures Explained(steps, ops, after)
  {
    var front := ops[..|ops| - 1];
    assert AcceptedOperation(IdSet(steps), ops[|ops| - 1]);
    forall k | 0 <= k < |front| && front[k].AddStep?
      ensures front[k].step != before
    {
      assert AcceptedOperation(IdSet(steps), ops[k]);
    }
    var i :| 0 <= i < |steps| && Carries(steps[i], front, before);
    CarriesUpdate(steps[i], ops, before, after);
  }

  /**
   * What an accepted patch without renames leaves: every step of the result is an original step that
   * carries the last value given for each of its fields, or an added step exactly as it was added.
   */
  lemma {:induction false} PatchContent(steps: seq<Step>, ops: seq<Operation>)
    requires Distinct(Ids(steps)) && Accepted(steps, ops) && NoRenames(ops)
    ensures forall i :: 0 <= i < |ApplyOps(steps, ops)| ==> Explained(steps, ops, ApplyOps(steps, ops)[i])
  {
    var after := ApplyOps(steps, ops);
    if ops == [] {
      forall i | 0 <= i < |steps|
        ensures Explained(steps, ops, steps[i])
      {
        assert Carries(steps[i], ops, steps[i]);
      }
    } else {
      var front, op := ops[..|ops| - 1], ops[|ops| - 1];
      var before := ApplyOps(steps, front);
      assert Accepted(steps, front) && NoRenames(front);
      PatchContent(steps, front);
      forall i | 0 <= i < |after|
        ensures Explained(steps, ops, after[i])
      {
        if op.UpdateStep? {
          UpdateExact(before, op.stepId, op.changes);
          UpdatedExplained(steps, ops, i);
        } else if op.AddStep? && after[i] == op.step {
          assert ops[|ops| - 1].step == after[i];
        } else {
          var j := FromBefore(before, op, i);
          ExplainedOn(steps, ops, before[j]);
        }
      }
    }
  }

  lemma FromBefore(before: seq<Step>, op: Operation, i: nat) returns (j: nat)
    requires !op.UpdateStep? && i < |ApplyOp(before, op)|
    requires op.AddStep? ==> ApplyOp(before, op)[i] != op.step
    ensures j < |before| && before[j] == ApplyOp(before, op)[i]
  {
    var after := ApplyOp(before, op);
    if op.AddStep? {
      var k := (if op.afterStepId == None then -1 else FindIndex(before, op.afterStepId.value)) + 1;
      assert after == before[..k] + [op.step] + before[k..];
      j := if i < k then i else i - 1;
    } else {
      var k := FindIndex(before, op.stepId);
      j := if k < 0 || i < k then i else i + 1;
    }
  }

  // ----- Which transitions and which messages, in order -----

  lemma {:induction false} KeepSnoc(ts: seq<Transition>, t: Transition, ids: set<string>)
    ensures Keep(ts + [t], ids) == Keep(ts, ids) + if t.from in ids && t.to in ids then [t] else []
  {
    if ts == [] {
      assert ([] + [t])[1..] == [];
    } else {
      assert (ts + [t])[1..] == ts[1..] + [t];
      KeepSnoc(ts[1..], t, ids);
    }
  }

  /** Some step has the id. */
  ghost predicate Present(steps: seq<Step>, id: string) {
    exists j :: 0 <= j < |steps| && steps[j].stepId == id
  }

  ghost function Staying(steps: seq<Step>): (Transition, Transition) -> bool {
    (t: Transition, u: Transition) => u == t && Present(steps, t.from) && Present(steps, t.to)
  }

  /** The transitions that stay are those whose two ends are steps, in order. */
  lemma {:induction false} KeepPicks(ts: seq<Transition>, steps: seq<Step>)
    ensures Picks(ts, Keep(ts, IdSet(steps)), Staying(steps))
  {
    if ts != [] {
      var front, t := ts[..|ts| - 1], ts[|ts| - 1];
      KeepPicks(front, steps);
      KeepSnoc(front, t, IdSet(steps));
      assert ts == front + [t];
      assert forall id :: id in IdSet(steps) <==> Present(steps, id);
      var more := if t.from in IdSet(steps) && t.to in IdSet(steps) then [t] else [];
      assert forall u :: Staying(steps)(t, u) <==> u in more;
      PicksLast(ts, t, Keep(front, IdSet(steps)), Staying(steps), more);
    }
  }

  /** The message for an operation that is not accepted. */
  ghost predicate Refused(steps: seq<Step>, op: Operation, message: string) {
    match op
    case AddStep(_, step) =>
      Present(steps, step.stepId) && message == "Duplicate stepId in patch add_step: " + step.stepId
    case UpdateStep(id, _) => !Present(steps, id) && message == "Patch references missing stepId: " + id
    case RemoveStep(id) => !Present(steps, id) && message == "Patch references missing stepId: " + id
  }

  ghost function Refusing(steps: seq<Step>): (Operation, string) -> bool {
    (op: Operation, message: string) => Refused(steps, op, message)
  }

  lemma {:induction false} PatchMessages(steps: seq<Step>, ops: seq<Operation>)
    ensures Picks(ops, PatchIssues(IdSet(steps), ops), Refusing(steps))
  {
    if ops != [] {
      var front, op := ops[..|ops| - 1], ops[|ops| - 1];
      PatchMessages(steps, front);
      PicksLast(ops, op, PatchIssues(IdSet(steps), front), Refusing(steps), OperationIssues(IdSet(steps), op));
    }
  }

  // ----- Adding and removing undo each other -----

  /** `k` steps precede the step an addition inserts. */
  ghost predicate Lands(steps: seq<Step>, after: Option<string>, k: nat) {
    if exists j :: 0 <= j < |steps| && after == Some(steps[j].stepId) then
      0 < k <= |steps| && after == Some(steps[k - 1].stepId) &&
      forall j :: 0 <= j < k - 1 ==> after != Some(steps[j].stepId)
    else k == 0
  }

  lemma {:induction false} FirstIndex(steps: seq<Step>, id: string, i: nat)
    requires i < |steps| && steps[i].stepId == id && forall j :: 0 <= j < i ==> steps[j].stepId != id
    ensures FindIndex(steps, id) == i
  {
  }

  /** An added step directly follows the first step with the anchor's id; without one it leads the list. */
  lemma AddedStepLands(steps: seq<Step>, after: Option<string>, step: Step, k: nat)
    requires Lands(steps, after, k)
    ensures ApplyOp(steps, AddStep(after, step)) == steps[..k] + [step] + steps[k..]
  {
    if exists j :: 0 <= j < |steps| && after == Some(steps[j].stepId) {
      FirstIndex(steps, after.value, k - 1);
    } else {
      assert steps[..0] + [step] + steps[0..] == [step] + steps;
    }
  }

  /** Removing a step right after adding it restores the list, when its id is new. */
  lemma RemoveUndoesAdd(steps: seq<Step>, after: Option<string>, step: Step)
    requires forall j :: 0 <= j < |steps| ==> steps[j].stepId != step.stepId
    ensures ApplyOp(ApplyOp(steps, AddStep(after, step)), RemoveStep(step.stepId)) == steps
  {
    var k := (if after == None then -1 else FindIndex(steps, after.value)) + 1;
    var added := ApplyOp(steps, AddStep(after, step));
    assert added == steps[..k] + [step] + steps[k..];
    FirstIndex(added, step.stepId, k);
    assert added[..k] + added[k + 1..] == steps;
  }

  /** A removed step comes back in its place when it is added behind its predecessor, ids being distinct. */
  lemma AddUndoesRemove(steps: seq<Step>, i: nat)
    requires i < |steps| && forall j, k :: 0 <= j < k < |steps| ==> steps[j].stepId != steps[k].stepId
    ensures var after := if i == 0 then None else Some(steps[i - 1].stepId);
            ApplyOp(ApplyOp(steps, RemoveStep(steps[i].stepId)), AddStep(after, steps[i])) == steps
  {
    var after := if i == 0 then None else Some(steps[i - 1].stepId);
    FirstIndex(steps, steps[i].stepId, i);
    var removed := steps[..i] + steps[i + 1..];
    if i > 0 {
      FirstIndex(removed, steps[i - 1].stepId, i - 1);
    }
    assert removed[..i] + [steps[i]] + removed[i..] == steps;
  }

  /** A step removed by one patch and put back by the next: its transition is lost, which one patch would keep. */
  lemma StagedPatchesDiffer(step: Step, t: Transition, w: Workflow)
    requires w.steps == [step] && w.transitions == [t] && t.from == t.to == step.stepId
    ensures Patched(Patched(w, [RemoveStep(step.stepId)]), [AddStep(None, step)]).transitions == []
    ensures Patched(w, [RemoveStep(step.stepId), AddStep(None, step)]).transitions == [t]
  {
    var p1, p2 := [RemoveStep(step.stepId)], [AddStep(None, step)];
    assert p1[..0] == [] && p2[..0] == [];
    assert p1 + p2 == [RemoveStep(step.stepId), AddStep(None, step)];
    FirstIndex(w.steps, step.stepId, 0);
    assert ApplyOp(w.steps, p1[0]) == [];
    assert IdSet([]) == {};
    assert Keep([t], {}) == [];
    ApplyOpsConcat(w.steps, p1, p2);
    assert ApplyOps(w.steps, p1 + p2) == [step];
    assert [step][0].stepId in IdSet([step]);
    assert Keep([t], IdSet([step])) == [t];
  }
}
