/** packages/workflow-compiler/src/index.ts: comparing two projections of a flow. */
module ProjectionDiff {
  import opened Prelude
  import opened Text
  import opened Json
  import opened FlowActions
  import opened SortedStrings
  import opened Connections
  import opened FlowCompiler

  datatype Kind =
    | AddedStep
    | RemovedStep
    | ChangedAction
    | ChangedConnection
    | ChangedExternalDelivery
    | NewForbiddenPiece
    | ChangedBranchOrLoop

  datatype DiffEntry = DiffEntry(
    kind: Kind,
    stepId: string,
    before: Option<ProjectionStep>,
    after: Option<ProjectionStep>)

  const FORBIDDEN: seq<string> := ["supabase", "service-role", "internal-network"]
  const DELIVERY: seq<string> := ["gmail", "slack", "telegram", "twilio", "sendgrid", "smtp", "whatsapp"]

  predicate NamesAnyOf(piece: Option<string>, words: seq<string>) {
    piece.Some? && exists i :: 0 <= i < |words| && Contains(piece.value, words[i])
  }

  predicate IsForbiddenPiece(piece: Option<string>) {
    NamesAnyOf(piece, FORBIDDEN)
  }

  predicate HasExternalDelivery(piece: Option<string>) {
    NamesAnyOf(piece, DELIVERY)
  }

  // ----- Steps by id, as a JavaScript Map holds them -----

  /** The ids in the order in which they first occur. */
  function Order(steps: seq<ProjectionStep>): seq<string> {
    if steps == [] then []
    else
      var ids := Order(steps[..|steps| - 1]);
      var id := steps[|steps| - 1].id;
      if id in ids then ids else ids + [id]
  }

  const IdOf := (step: ProjectionStep) => step.id

  /** Every id with its last step. */
  function ById(steps: seq<ProjectionStep>): map<string, ProjectionStep> {
    ByKey(steps, IdOf)
  }

  lemma {:induction false} OrderIsKeys(steps: seq<ProjectionStep>)
    ensures Distinct(Order(steps))
    ensures forall id :: id in Order(steps) <==> id in ById(steps)
  {
    if steps != [] {
      OrderIsKeys(steps[..|steps| - 1]);
    }
  }

  method CollectById(steps: seq<ProjectionStep>) returns (order: seq<string>, byId: map<string, ProjectionStep>)
    ensures order == Order(steps) && byId == ById(steps)
  {
    order, byId := [], map[];
    for i := 0 to |steps|
      invariant order == Order(steps[..i]) && byId == ById(steps[..i])
    {
      assert steps[..i + 1][..i] == steps[..i];
      if steps[i].id !in order {
        order := order + [steps[i].id];
      }
      byId := byId[steps[i].id := steps[i]];
    }
    assert steps[..|steps|] == steps;
  }

  // ----- The diff -----

  function When(condition: bool, entry: DiffEntry): seq<DiffEntry> {
    if condition then [entry] else []
  }

  predicate SameAction(b: ProjectionStep, a: ProjectionStep) {
    b.activepiecesType == a.activepiecesType && b.requiredPiece == a.requiredPiece
  }

  predicate SameConnections(b: ProjectionStep, a: ProjectionStep) {
    ConnectionsOf(b.raw.action.settings) == ConnectionsOf(a.raw.action.settings)
  }

  predicate SameDelivery(b: ProjectionStep, a: ProjectionStep) {
    !HasExternalDelivery(a.requiredPiece) || b.raw.identity == a.raw.identity
  }

  predicate SameShape(b: ProjectionStep, a: ProjectionStep) {
    || b.activepiecesType == a.activepiecesType
    || (a.activepiecesType != "ROUTER" && a.activepiecesType != "LOOP_ON_ITEMS")
  }

  /** The entries for an id of the later projection. */
  function EntriesFor(before: map<string, ProjectionStep>, id: string, a: ProjectionStep): seq<DiffEntry> {
    if id !in before then
      [DiffEntry(AddedStep, id, None, Some(a))]
      + When(IsForbiddenPiece(a.requiredPiece), DiffEntry(NewForbiddenPiece, id, None, Some(a)))
    else
      var b := before[id];
      When(!SameAction(b, a), DiffEntry(ChangedAction, id, Some(b), Some(a)))
      + When(!SameConnections(b, a), DiffEntry(ChangedConnection, id, Some(b), Some(a)))
      + When(!SameDelivery(b, a), DiffEntry(ChangedExternalDelivery, id, Some(b), Some(a)))
      + When(!SameShape(b, a), DiffEntry(ChangedBranchOrLoop, id, Some(b), Some(a)))
  }

  function AfterEntries(before: map<string, ProjectionStep>, after: map<string, ProjectionStep>, ids: seq<string>)
    : seq<DiffEntry>
    requires forall id :: id in ids ==> id in after
  {
    if ids == [] then []
    else
      var id := ids[|ids| - 1];
      AfterEntries(before, after, ids[..|ids| - 1]) + EntriesFor(before, id, after[id])
  }

  function RemovedEntries(before: map<string, ProjectionStep>, after: map<string, ProjectionStep>, ids: seq<string>)
    : seq<DiffEntry>
    requires forall id :: id in ids ==> id in before
  {
    if ids == [] then []
    else
      var id := ids[|ids| - 1];
      RemovedEntries(before, after, ids[..|ids| - 1])
      + When(id !in after, DiffEntry(RemovedStep, id, Some(before[id]), None))
  }

  function Diff(before: seq<ProjectionStep>, after: seq<ProjectionStep>): seq<DiffEntry> {
    OrderIsKeys(before);
    OrderIsKeys(after);
    AfterEntries(ById(before), ById(after), Order(after)) + RemovedEntries(ById(before), ById(after), Order(before))
  }

  /** Comparing the printed sorted lists of connections compares the sets. */
  method HasChangedConnection(b: Action, a: Action) returns (changed: bool)
    ensures changed <==> ConnectionsOf(b.settings) != ConnectionsOf(a.settings)
  {
    var earlier := ExtractConnections(b.settings);
    var later := ExtractConnections(a.settings);
    changed := earlier != later;
    if ConnectionsOf(b.settings) == ConnectionsOf(a.settings) {
      SortedUnique(earlier, later);
    }
  }

  /** The body of the loop over the later projection. */
  method CompareStep(before: map<string, ProjectionStep>, id: string, a: ProjectionStep)
    returns (entries: seq<DiffEntry>)
    ensures entries == EntriesFor(before, id, a)
  {
    if id !in before {
      entries := [DiffEntry(AddedStep, id, None, Some(a))];
      if IsForbiddenPiece(a.requiredPiece) {
        entries := entries + [DiffEntry(NewForbiddenPiece, id, None, Some(a))];
      }
      return;
    }
    var b := before[id];
    entries := [];
    if b.activepiecesType != a.activepiecesType || b.requiredPiece != a.requiredPiece {
      entries := entries + [DiffEntry(ChangedAction, id, Some(b), Some(a))];
    }
    var changed := HasChangedConnection(b.raw.action, a.raw.action);
    if changed {
      entries := entries + [DiffEntry(ChangedConnection, id, Some(b), Some(a))];
    }
    if HasExternalDelivery(a.requiredPiece) && b.raw.identity != a.raw.identity {
      entries := entries + [DiffEntry(ChangedExternalDelivery, id, Some(b), Some(a))];
    }
    if b.activepiecesType != a.activepiecesType
       && (a.activepiecesType == "ROUTER" || a.activepiecesType == "LOOP_ON_ITEMS") {
      entries := entries + [DiffEntry(ChangedBranchOrLoop, id, Some(b), Some(a))];
    }
  }

  /** The loop over the earlier projection. */
  method CollectRemoved(before: map<string, ProjectionStep>, after: map<string, ProjectionStep>, ids: seq<string>)
    returns (entries: seq<DiffEntry>)
    requires forall id :: id in ids ==> id in before
    ensures entries == RemovedEntries(before, after, ids)
  {
    entries := [];
    for i := 0 to |ids|
      invariant entries == RemovedEntries(before, after, ids[..i])
    {
      assert ids[..i + 1][..i] == ids[..i];
      if ids[i] !in after {
        entries := entries + [DiffEntry(RemovedStep, ids[i], Some(before[ids[i]]), None)];
      }
    }
    assert ids[..|ids|] == ids;
  }

  method DiffActivepiecesProjection(before: Projection, after: Projection) returns (entries: seq<DiffEntry>)
    ensures entries == Diff(before.steps, after.steps)
    ensures Picks(LaterPlaces(|after.steps|) + EarlierPlaces(|before.steps|), entries,
                  Giving(before.steps, after.steps))
  {
    var beforeIds, beforeById := CollectById(before.steps);
    var afterIds, afterById := CollectById(after.steps);
    OrderIsKeys(before.steps);
    OrderIsKeys(after.steps);
    entries := [];
    for i := 0 to |afterIds|
      invariant entries == AfterEntries(beforeById, afterById, afterIds[..i])
    {
      assert afterIds[..i + 1][..i] == afterIds[..i];
      var found := CompareStep(beforeById, afterIds[i], afterById[afterIds[i]]);
      entries := entries + found;
    }
    assert afterIds[..|afterIds|] == afterIds;
    var removed := CollectRemoved(beforeById, afterById, beforeIds);
    entries := entries + removed;
    DiffListed(before.steps, after.steps);
  }

  // ----- What a diff reports -----

  /** `s` is the last step with its id. */
  ghost predicate IsLast(steps: seq<ProjectionStep>, id: string, s: ProjectionStep) {
    LastWith(steps, IdOf, id, s)
  }

  ghost predicate HasId(steps: seq<ProjectionStep>, id: string) {
    exists i :: 0 <= i < |steps| && steps[i].id == id
  }

  /** The piece's name holds the word somewhere. */
  ghost predicate Holds(piece: Option<string>, word: string) {
    piece.Some? && exists front, back :: piece.value == front + word + back
  }

  ghost predicate Delivering(piece: Option<string>) {
    || Holds(piece, "gmail") || Holds(piece, "slack") || Holds(piece, "telegram") || Holds(piece, "twilio")
    || Holds(piece, "sendgrid") || Holds(piece, "smtp") || Holds(piece, "whatsapp")
  }

  ghost predicate Forbidden(piece: Option<string>) {
    Holds(piece, "supabase") || Holds(piece, "service-role") || Holds(piece, "internal-network")
  }

  /** Why the last steps of an id differ in some way, read off their fields. */
  ghost predicate Differs(kind: Kind, b: ProjectionStep, a: ProjectionStep) {
    match kind
    case ChangedAction => b.activepiecesType != a.activepiecesType || b.requiredPiece != a.requiredPiece
    case ChangedConnection => ConnectionsOf(b.raw.action.settings) != ConnectionsOf(a.raw.action.settings)
    case ChangedExternalDelivery => Delivering(a.requiredPiece) && b.raw.identity != a.raw.identity
    case ChangedBranchOrLoop =>
      && b.activepiecesType != a.activepiecesType
      && (a.activepiecesType == "ROUTER" || a.activepiecesType == "LOOP_ON_ITEMS")
    case _ => false
  }

  /** The reasons for an entry of each kind, read off the two lists of steps. */
  ghost predicate Warranted(before: seq<ProjectionStep>, after: seq<ProjectionStep>, kind: Kind, id: string) {
    match kind
    case AddedStep => HasId(after, id) && !HasId(before, id)
    case RemovedStep => HasId(before, id) && !HasId(after, id)
    case NewForbiddenPiece => !HasId(before, id) && exists a :: IsLast(after, id, a) && Forbidden(a.requiredPiece)
    case _ => exists b, a :: IsLast(before, id, b) && IsLast(after, id, a) && Differs(kind, b, a)
  }

  /** What an entry carries of a list: the last step with its id, nothing without one. */
  ghost predicate LastOf(steps: seq<ProjectionStep>, id: string, carried: Option<ProjectionStep>) {
    match carried
    case None => !HasId(steps, id)
    case Some(s) => IsLast(steps, id, s)
  }

  ghost predicate Reports(entries: seq<DiffEntry>, kind: Kind, id: string) {
    exists e :: e in entries && e.kind == kind && e.stepId == id
  }

  /** The same reasons on the two maps. */
  predicate Due(before: map<string, ProjectionStep>, after: map<string, ProjectionStep>, kind: Kind, id: string) {
    match kind
    case AddedStep => id in after && id !in before
    case RemovedStep => id in before && id !in after
    case NewForbiddenPiece => id in after && id !in before && IsForbiddenPiece(after[id].requiredPiece)
    case ChangedAction => id in after && id in before && !SameAction(before[id], after[id])
    case ChangedConnection => id in after && id in before && !SameConnections(before[id], after[id])
    case ChangedExternalDelivery => id in after && id in before && !SameDelivery(before[id], after[id])
    case ChangedBranchOrLoop => id in after && id in before && !SameShape(before[id], after[id])
  }

  function StepOf(m: map<string, ProjectionStep>, id: string): Option<ProjectionStep> {
    if id in m then Some(m[id]) else None
  }

  /** The entry for a kind and an id, if there is one. */
  function Expected(before: map<string, ProjectionStep>, after: map<string, ProjectionStep>, kind: Kind, id: string)
    : DiffEntry
  {
    DiffEntry(kind, id, StepOf(before, id), StepOf(after, id))
  }

  lemma ByIdIsLast(steps: seq<ProjectionStep>, id: string, s: ProjectionStep)
    ensures IsLast(steps, id, s) <==> id in ById(steps) && ById(steps)[id] == s
  {
    ByKeyIsLast(steps, IdOf, id, s);
  }

  lemma {:induction false} ByIdHasId(steps: seq<ProjectionStep>, id: string)
    ensures HasId(steps, id) <==> id in ById(steps)
  {
    if steps != [] {
      ByIdHasId(steps[..|steps| - 1], id);
      assert steps == steps[..|steps| - 1] + [steps[|steps| - 1]];
    }
  }

  lemma OccursIff(text: string, word: string)
    ensures Contains(text, word) <==> exists front, back :: text == front + word + back
  {
    if i :| 0 <= i <= |text| && OccursAt(text, word, i) {
      assert text == text[..i] + word + text[i + |word|..];
    }
    if front, back :| text == front + word + back {
      assert OccursAt(text, word, |front|);
    }
  }

  lemma WordsAre(piece: Option<string>)
    ensures HasExternalDelivery(piece) <==> Delivering(piece)
    ensures IsForbiddenPiece(piece) <==> Forbidden(piece)
  {
    if piece.Some? {
      forall word
        ensures Contains(piece.value, word) <==> Holds(piece, word)
      {
        OccursIff(piece.value, word);
      }
      assert DELIVERY[0] == "gmail" && DELIVERY[1] == "slack" && DELIVERY[2] == "telegram" && DELIVERY[3] == "twilio";
      assert DELIVERY[4] == "sendgrid" && DELIVERY[5] == "smtp" && DELIVERY[6] == "whatsapp";
      assert FORBIDDEN[0] == "supabase" && FORBIDDEN[1] == "service-role" && FORBIDDEN[2] == "internal-network";
    }
  }

  lemma DueDiffers(before: map<string, ProjectionStep>, after: map<string, ProjectionStep>, kind: Kind, id: string)
    requires id in before && id in after
    ensures Due(before, after, kind, id) <==> Differs(kind, before[id], after[id])
  {
    WordsAre(after[id].requiredPiece);
  }

  lemma DueIsWarranted(before: seq<ProjectionStep>, after: seq<ProjectionStep>, kind: Kind, id: string)
    ensures Due(ById(before), ById(after), kind, id) <==> Warranted(before, after, kind, id)
  {
    ByIdHasId(before, id);
    ByIdHasId(after, id);
    forall s
      ensures IsLast(before, id, s) <==> id in ById(before) && ById(before)[id] == s
      ensures IsLast(after, id, s) <==> id in ById(after) && ById(after)[id] == s
    {
      ByIdIsLast(before, id, s);
      ByIdIsLast(after, id, s);
    }
    if id in ById(after) {
      WordsAre(ById(after)[id].requiredPiece);
      if id in ById(before) {
        DueDiffers(ById(before), ById(after), kind, id);
      }
    }
  }

  lemma EntriesForHold(before: map<string, ProjectionStep>, after: map<string, ProjectionStep>, id: string,
                       e: DiffEntry)
    requires id in after
    ensures e in EntriesFor(before, id, after[id]) <==>
            e == Expected(before, after, e.kind, id) && e.kind != RemovedStep && Due(before, after, e.kind, id)
  {
    var a, x := after[id], StepOf(before, id);
    assert e in EntriesFor(before, id, a) <==>
           match e.kind
           case AddedStep => id !in before && e == DiffEntry(AddedStep, id, x, Some(a))
           case NewForbiddenPiece =>
             id !in before && IsForbiddenPiece(a.requiredPiece) && e == DiffEntry(NewForbiddenPiece, id, x, Some(a))
           case ChangedAction =>
             id in before && !SameAction(before[id], a) && e == DiffEntry(ChangedAction, id, x, Some(a))
           case ChangedConnection =>
             id in before && !SameConnections(before[id], a) && e == DiffEntry(ChangedConnection, id, x, Some(a))
           case ChangedExternalDelivery =>
             id in before && !SameDelivery(before[id], a) && e == DiffEntry(ChangedExternalDelivery, id, x, Some(a))
           case ChangedBranchOrLoop =>
             id in before && !SameShape(before[id], a) && e == DiffEntry(ChangedBranchOrLoop, id, x, Some(a))
           case RemovedStep => false;
  }

  lemma {:induction false} AfterHold(before: map<string, ProjectionStep>, after: map<string, ProjectionStep>,
                                     ids: seq<string>, e: DiffEntry)
    requires forall id :: id in ids ==> id in after
    ensures e in AfterEntries(before, after, ids) <==>
            && e.stepId in ids && e == Expected(before, after, e.kind, e.stepId)
            && e.kind != RemovedStep && Due(before, after, e.kind, e.stepId)
  {
    if ids != [] {
      AfterHold(before, after, ids[..|ids| - 1], e);
      EntriesForHold(before, after, ids[|ids| - 1], e);
    }
  }

  lemma {:induction false} RemovedHold(before: map<string, ProjectionStep>, after: map<string, ProjectionStep>,
                                       ids: seq<string>, e: DiffEntry)
    requires forall id :: id in ids ==> id in before
    ensures e in RemovedEntries(before, after, ids) <==>
            && e.stepId in ids && e == Expected(before, after, e.kind, e.stepId)
            && e.kind == RemovedStep && Due(before, after, e.kind, e.stepId)
  {
    if ids != [] {
      RemovedHold(before, after, ids[..|ids| - 1], e);
    }
  }

  lemma DiffHolds(before: seq<ProjectionStep>, after: seq<ProjectionStep>, e: DiffEntry)
    ensures e in Diff(before, after) <==>
            && e == Expected(ById(before), ById(after), e.kind, e.stepId)
            && Due(ById(before), ById(after), e.kind, e.stepId)
  {
    var b, a := ById(before), ById(after);
    OrderIsKeys(before);
    OrderIsKeys(after);
    AfterHold(b, a, Order(after), e);
    RemovedHold(b, a, Order(before), e);
    assert e in Diff(before, after) <==>
           e in AfterEntries(b, a, Order(after)) || e in RemovedEntries(b, a, Order(before));
    if Due(b, a, e.kind, e.stepId) {
      DueListed(b, a, e.kind, e.stepId);
    }
  }

  /** An entry is due only for an id of the list that it is looked for in. */
  lemma DueListed(before: map<string, ProjectionStep>, after: map<string, ProjectionStep>, kind: Kind, id: string)
    requires Due(before, after, kind, id)
    ensures kind == RemovedStep ==> id in before
    ensures kind != RemovedStep ==> id in after
  {
  }

  lemma StepOfIsLast(steps: seq<ProjectionStep>, id: string, carried: Option<ProjectionStep>)
    ensures carried == StepOf(ById(steps), id) <==> LastOf(steps, id, carried)
  {
    ByIdHasId(steps, id);
    if carried.Some? {
      ByIdIsLast(steps, id, carried.value);
    }
  }

  /** A diff holds an entry exactly when the two lists give reason to and it carries their last steps with the id. */
  lemma DiffExact(before: seq<ProjectionStep>, after: seq<ProjectionStep>, e: DiffEntry)
    ensures e in Diff(before, after) <==>
            && Warranted(before, after, e.kind, e.stepId)
            && LastOf(before, e.stepId, e.before) && LastOf(after, e.stepId, e.after)
  {
    DiffHolds(before, after, e);
    DueIsWarranted(before, after, e.kind, e.stepId);
    StepOfIsLast(before, e.stepId, e.before);
    StepOfIsLast(after, e.stepId, e.after);
  }

  /** A diff reports a change of some kind for an id exactly when the two lists give reason to. */
  lemma DiffReports(before: seq<ProjectionStep>, after: seq<ProjectionStep>, kind: Kind, id: string)
    ensures Reports(Diff(before, after), kind, id) <==> Warranted(before, after, kind, id)
  {
    DueIsWarranted(before, after, kind, id);
    DiffHolds(before, after, Expected(ById(before), ById(after), kind, id));
    if e :| e in Diff(before, after) && e.kind == kind && e.stepId == id {
      DiffHolds(before, after, e);
    }
  }

  /** No record of the steps' settings holds a key twice, as in every record that was parsed. */
  ghost predicate ProperSettings(steps: seq<ProjectionStep>) {
    forall i :: 0 <= i < |steps| ==> WellFormed(Obj(steps[i].raw.action.settings))
  }

  ghost predicate NamesSomewhere(settings: seq<Field>, s: string) {
    exists path :: Names(Obj(settings), path, s)
  }

  /** Some string is found at a connection key, at any depth, in exactly one of two settings. */
  ghost predicate NamesOther(b: seq<Field>, a: seq<Field>) {
    exists s :: NamesSomewhere(b, s) != NamesSomewhere(a, s)
  }

  lemma ConnectionsDiffer(b: seq<Field>, a: seq<Field>)
    requires WellFormed(Obj(b)) && WellFormed(Obj(a))
    ensures ConnectionsOf(b) != ConnectionsOf(a) <==> NamesOther(b, a)
  {
    forall s
      ensures s in ConnectionsOf(b) <==> NamesSomewhere(b, s)
      ensures s in ConnectionsOf(a) <==> NamesSomewhere(a, s)
    {
      ConnectionsExact(b, s);
      ConnectionsExact(a, s);
    }
    if ConnectionsOf(b) != ConnectionsOf(a) {
      assert exists s :: (s in ConnectionsOf(b)) != (s in ConnectionsOf(a));
      var s :| (s in ConnectionsOf(b)) != (s in ConnectionsOf(a));
      assert NamesSomewhere(b, s) != NamesSomewhere(a, s);
    }
  }

  /** A changed connection is reported exactly when only one of the last steps' settings names some string. */
  lemma ConnectionReported(before: seq<ProjectionStep>, after: seq<ProjectionStep>, id: string)
    requires ProperSettings(before) && ProperSettings(after)
    ensures Reports(Diff(before, after), ChangedConnection, id) <==>
            exists b, a :: IsLast(before, id, b) && IsLast(after, id, a) &&
                           NamesOther(b.raw.action.settings, a.raw.action.settings)
  {
    DiffReports(before, after, ChangedConnection, id);
    forall b, a | IsLast(before, id, b) && IsLast(after, id, a)
      ensures Differs(ChangedConnection, b, a) <==> NamesOther(b.raw.action.settings, a.raw.action.settings)
    {
      ConnectionsDiffer(b.raw.action.settings, a.raw.action.settings);
    }
  }

  /** The steps have the same type, piece and connections, and share a delivery's raw action. */
  ghost predicate Agree(b: ProjectionStep, a: ProjectionStep) {
    && b.activepiecesType == a.activepiecesType && b.requiredPiece == a.requiredPiece
    && ConnectionsOf(b.raw.action.settings) == ConnectionsOf(a.raw.action.settings)
    && (Delivering(a.requiredPiece) ==> b.raw.identity == a.raw.identity)
  }

  /** Same ids, and per id the last steps agree. */
  ghost predicate Equivalent(before: seq<ProjectionStep>, after: seq<ProjectionStep>) {
    && (forall id :: HasId(before, id) <==> HasId(after, id))
    && forall id, b, a :: IsLast(before, id, b) && IsLast(after, id, a) ==> Agree(b, a)
  }

  lemma EquivalentUnwarranted(before: seq<ProjectionStep>, after: seq<ProjectionStep>, kind: Kind, id: string)
    requires Equivalent(before, after)
    ensures !Warranted(before, after, kind, id)
  {
    if kind == NewForbiddenPiece {
      assert HasId(before, id) <==> HasId(after, id);
    }
  }

  lemma UnwarrantedAgree(before: seq<ProjectionStep>, after: seq<ProjectionStep>, id: string, b: ProjectionStep,
                         a: ProjectionStep)
    requires IsLast(before, id, b) && IsLast(after, id, a)
    requires !Warranted(before, after, ChangedAction, id) && !Warranted(before, after, ChangedConnection, id)
    requires !Warranted(before, after, ChangedExternalDelivery, id)
    ensures Agree(b, a)
  {
    assert !Differs(ChangedAction, b, a) && !Differs(ChangedConnection, b, a);
    assert !Differs(ChangedExternalDelivery, b, a);
  }

  lemma UnwarrantedEquivalent(before: seq<ProjectionStep>, after: seq<ProjectionStep>)
    requires forall kind, id :: !Warranted(before, after, kind, id)
    ensures Equivalent(before, after)
  {
    forall id
      ensures HasId(before, id) <==> HasId(after, id)
    {
      assert !Warranted(before, after, AddedStep, id) && !Warranted(before, after, RemovedStep, id);
    }
    forall id, b, a | IsLast(before, id, b) && IsLast(after, id, a)
      ensures Agree(b, a)
    {
      UnwarrantedAgree(before, after, id, b, a);
    }
  }

  /** The diff is empty exactly for equivalent projections. */
  lemma DiffEmptyIffEquivalent(before: seq<ProjectionStep>, after: seq<ProjectionStep>)
    ensures Diff(before, after) == [] <==> Equivalent(before, after)
  {
    if Diff(before, after) == [] {
      forall kind, id
        ensures !Warranted(before, after, kind, id)
      {
        DiffReports(before, after, kind, id);
      }
      UnwarrantedEquivalent(before, after);
    } else {
      var e := Diff(before, after)[0];
      DiffExact(before, after, e);
      if Equivalent(before, after) {
        EquivalentUnwarranted(before, after, e.kind, e.stepId);
      }
    }
  }

  // ----- The order of the entries -----

  /** Where an entry can come from: a kind of change at a step of the later list, or a step of the earlier one. */
  datatype Place = Later(index: nat, kind: Kind) | Earlier(index: nat)

  function PlacesOf(i: nat): seq<Place> {
    [Later(i, AddedStep)] + [Later(i, NewForbiddenPiece)] + [Later(i, ChangedAction)] + [Later(i, ChangedConnection)]
    + [Later(i, ChangedExternalDelivery)] + [Later(i, ChangedBranchOrLoop)]
  }

  function LaterPlaces(n: nat): seq<Place> {
    if n == 0 then [] else LaterPlaces(n - 1) + PlacesOf(n - 1)
  }

  function EarlierPlaces(n: nat): seq<Place> {
    if n == 0 then [] else EarlierPlaces(n - 1) + [Earlier(n - 1)]
  }

  /** The id of the step occurs here for the first time. */
  ghost predicate IsNew(steps: seq<ProjectionStep>, i: nat) {
    i < |steps| && forall j :: 0 <= j < i ==> steps[j].id != steps[i].id
  }

  /** The entry that a place gives, if the lists warrant one. */
  ghost predicate PlaceGives(before: seq<ProjectionStep>, after: seq<ProjectionStep>, place: Place, e: DiffEntry) {
    && (match place
        case Later(i, kind) =>
          IsNew(after, i) && kind != RemovedStep && e.kind == kind && e.stepId == after[i].id
        case Earlier(i) => IsNew(before, i) && e.kind == RemovedStep && e.stepId == before[i].id)
    && Warranted(before, after, e.kind, e.stepId)
    && LastOf(before, e.stepId, e.before) && LastOf(after, e.stepId, e.after)
  }

  ghost function Giving(before: seq<ProjectionStep>, after: seq<ProjectionStep>): (Place, DiffEntry) -> bool {
    (place: Place, e: DiffEntry) => PlaceGives(before, after, place, e)
  }

  /** The entry of a kind for an id, when it is due. */
  function Entry(before: map<string, ProjectionStep>, after: map<string, ProjectionStep>, kind: Kind, id: string)
    : seq<DiffEntry>
  {
    When(Due(before, after, kind, id), Expected(before, after, kind, id))
  }

  lemma PlaceGivesExpected(before: seq<ProjectionStep>, after: seq<ProjectionStep>, e: DiffEntry)
    ensures (Warranted(before, after, e.kind, e.stepId)
             && LastOf(before, e.stepId, e.before) && LastOf(after, e.stepId, e.after)) <==>
            (Due(ById(before), ById(after), e.kind, e.stepId)
             && e == Expected(ById(before), ById(after), e.kind, e.stepId))
  {
    DueIsWarranted(before, after, e.kind, e.stepId);
    StepOfIsLast(before, e.stepId, e.before);
    StepOfIsLast(after, e.stepId, e.after);
  }

  lemma OnePlace(before: seq<ProjectionStep>, after: seq<ProjectionStep>, place: Place, kind: Kind, id: string)
    requires match place
             case Later(i, k) => IsNew(after, i) && k == kind != RemovedStep && id == after[i].id
             case Earlier(i) => IsNew(before, i) && kind == RemovedStep && id == before[i].id
    ensures Picks([place], Entry(ById(before), ById(after), kind, id), Giving(before, after))
  {
    var gives, more := Giving(before, after), Entry(ById(before), ById(after), kind, id);
    forall e
      ensures gives(place, e) <==> e in more
    {
      PlaceGivesExpected(before, after, e);
    }
    PicksNothing(gives);
    assert [place][..0] == [];
    PicksLast([place], place, [], gives, more);
    assert [] + more == more;
  }

  lemma EmptyAround(c: seq<DiffEntry>, d: seq<DiffEntry>, e: seq<DiffEntry>, f: seq<DiffEntry>)
    ensures [] + [] + c + d + e + f == c + d + e + f
    ensures c + d + [] + [] + [] + [] == c + d
  {
    assert [] + [] + c == c;
  }

  lemma SixEntries(before: map<string, ProjectionStep>, after: map<string, ProjectionStep>, id: string)
    requires id in after
    ensures EntriesFor(before, id, after[id]) ==
            Entry(before, after, AddedStep, id) + Entry(before, after, NewForbiddenPiece, id)
            + Entry(before, after, ChangedAction, id) + Entry(before, after, ChangedConnection, id)
            + Entry(before, after, ChangedExternalDelivery, id) + Entry(before, after, ChangedBranchOrLoop, id)
  {
    var e1, e2 := Entry(before, after, AddedStep, id), Entry(before, after, NewForbiddenPiece, id);
    var e3, e4 := Entry(before, after, ChangedAction, id), Entry(before, after, ChangedConnection, id);
    var e5, e6 := Entry(before, after, ChangedExternalDelivery, id), Entry(before, after, ChangedBranchOrLoop, id);
    if id in before {
      KnownEntries(before, after, id);
      EmptyAround(e3, e4, e5, e6);
    } else {
      NewEntries(before, after, id);
      EmptyAround(e1, e2, [], []);
    }
  }

  lemma KnownEntries(before: map<string, ProjectionStep>, after: map<string, ProjectionStep>, id: string)
    requires id in after && id in before
    ensures Entry(before, after, AddedStep, id) == [] && Entry(before, after, NewForbiddenPiece, id) == []
    ensures EntriesFor(before, id, after[id]) ==
            Entry(before, after, ChangedAction, id) + Entry(before, after, ChangedConnection, id)
            + Entry(before, after, ChangedExternalDelivery, id) + Entry(before, after, ChangedBranchOrLoop, id)
  {
  }

  lemma NewEntries(before: map<string, ProjectionStep>, after: map<string, ProjectionStep>, id: string)
    requires id in after && id !in before
    ensures Entry(before, after, ChangedAction, id) == [] && Entry(before, after, ChangedConnection, id) == []
    ensures Entry(before, after, ChangedExternalDelivery, id) == []
    ensures Entry(before, after, ChangedBranchOrLoop, id) == []
    ensures EntriesFor(before, id, after[id]) ==
            Entry(before, after, AddedStep, id) + Entry(before, after, NewForbiddenPiece, id)
  {
  }

  lemma SixPlaces(before: seq<ProjectionStep>, after: seq<ProjectionStep>, i: nat)
    requires IsNew(after, i) && after[i].id in ById(after)
    ensures Picks(PlacesOf(i), EntriesFor(ById(before), after[i].id, ById(after)[after[i].id]), Giving(before, after))
  {
    var b, a, id, gives := ById(before), ById(after), after[i].id, Giving(before, after);
    OnePlace(before, after, Later(i, AddedStep), AddedStep, id);
    OnePlace(before, after, Later(i, NewForbiddenPiece), NewForbiddenPiece, id);
    OnePlace(before, after, Later(i, ChangedAction), ChangedAction, id);
    OnePlace(before, after, Later(i, ChangedConnection), ChangedConnection, id);
    OnePlace(before, after, Later(i, ChangedExternalDelivery), ChangedExternalDelivery, id);
    OnePlace(before, after, Later(i, ChangedBranchOrLoop), ChangedBranchOrLoop, id);
    SixEntries(b, a, id);
    SixPicked([Later(i, AddedStep)], Entry(b, a, AddedStep, id),
              [Later(i, NewForbiddenPiece)], Entry(b, a, NewForbiddenPiece, id),
              [Later(i, ChangedAction)], Entry(b, a, ChangedAction, id),
              [Later(i, ChangedConnection)], Entry(b, a, ChangedConnection, id),
              [Later(i, ChangedExternalDelivery)], Entry(b, a, ChangedExternalDelivery, id),
              [Later(i, ChangedBranchOrLoop)], Entry(b, a, ChangedBranchOrLoop, id), gives);
  }

  lemma SixPicked(p1: seq<Place>, x1: seq<DiffEntry>, p2: seq<Place>, x2: seq<DiffEntry>,
                  p3: seq<Place>, x3: seq<DiffEntry>, p4: seq<Place>, x4: seq<DiffEntry>,
                  p5: seq<Place>, x5: seq<DiffEntry>, p6: seq<Place>, x6: seq<DiffEntry>,
                  gives: (Place, DiffEntry) -> bool)
    requires Picks(p1, x1, gives) && Picks(p2, x2, gives) && Picks(p3, x3, gives)
    requires Picks(p4, x4, gives) && Picks(p5, x5, gives) && Picks(p6, x6, gives)
    ensures Picks(p1 + p2 + p3 + p4 + p5 + p6, x1 + x2 + x3 + x4 + x5 + x6, gives)
  {
    PicksConcat(p1, x1, p2, x2, gives);
    PicksConcat(p1 + p2, x1 + x2, p3, x3, gives);
    PicksConcat(p1 + p2 + p3, x1 + x2 + x3, p4, x4, gives);
    PicksConcat(p1 + p2 + p3 + p4, x1 + x2 + x3 + x4, p5, x5, gives);
    PicksConcat(p1 + p2 + p3 + p4 + p5, x1 + x2 + x3 + x4 + x5, p6, x6, gives);
  }

  lemma {:induction false} OrderHolds(steps: seq<ProjectionStep>, id: string)
    ensures id in Order(steps) <==> HasId(steps, id)
  {
    OrderIsKeys(steps);
    ByIdHasId(steps, id);
  }

  lemma NextOrder(steps: seq<ProjectionStep>, n: nat)
    requires n < |steps|
    ensures Order(steps[..n + 1]) ==
            if IsNew(steps, n) then Order(steps[..n]) + [steps[n].id] else Order(steps[..n])
    ensures HasId(steps, steps[n].id)
  {
    assert steps[..n + 1][..n] == steps[..n];
    OrderHolds(steps[..n], steps[n].id);
  }

  lemma {:induction false} NothingGiven(before: seq<ProjectionStep>, after: seq<ProjectionStep>, places: seq<Place>)
    requires forall p, e :: p in places ==> !PlaceGives(before, after, p, e)
    ensures Picks(places, [], Giving(before, after))
  {
    if places != [] {
      NothingGiven(before, after, places[..|places| - 1]);
      assert places[|places| - 1] in places;
    }
  }

  ghost predicate LaterPicked(before: seq<ProjectionStep>, after: seq<ProjectionStep>, n: nat) {
    && n <= |after| && (forall id :: id in Order(after[..n]) ==> id in ById(after))
    && Picks(LaterPlaces(n), AfterEntries(ById(before), ById(after), Order(after[..n])), Giving(before, after))
  }

  lemma NewLater(before: seq<ProjectionStep>, after: seq<ProjectionStep>, n: nat)
    requires n < |after| && LaterPicked(before, after, n) && IsNew(after, n)
    ensures LaterPicked(before, after, n + 1)
  {
    var ids, id, b, a := Order(after[..n]), after[n].id, ById(before), ById(after);
    NextOrder(after, n);
    ByIdHasId(after, id);
    SixPlaces(before, after, n);
    assert (ids + [id])[..|ids|] == ids;
    PicksConcat(LaterPlaces(n), AfterEntries(b, a, ids), PlacesOf(n), EntriesFor(b, id, a[id]), Giving(before, after));
  }

  lemma PlacesOfAre(i: nat, p: Place)
    requires p in PlacesOf(i)
    ensures p.Later? && p.index == i
  {
  }

  lemma OldLater(before: seq<ProjectionStep>, after: seq<ProjectionStep>, n: nat)
    requires n < |after| && LaterPicked(before, after, n) && !IsNew(after, n)
    ensures LaterPicked(before, after, n + 1)
  {
    var entries := AfterEntries(ById(before), ById(after), Order(after[..n]));
    NextOrder(after, n);
    forall p | p in PlacesOf(n)
      ensures p.Later? && p.index == n
    {
      PlacesOfAre(n, p);
    }
    NothingGiven(before, after, PlacesOf(n));
    PicksConcat(LaterPlaces(n), entries, PlacesOf(n), [], Giving(before, after));
    assert entries + [] == entries;
  }

  lemma NextLater(before: seq<ProjectionStep>, after: seq<ProjectionStep>, n: nat)
    requires n < |after| && LaterPicked(before, after, n)
    ensures LaterPicked(before, after, n + 1)
  {
    if IsNew(after, n) {
      NewLater(before, after, n);
    } else {
      OldLater(before, after, n);
    }
  }

  ghost predicate EarlierPicked(before: seq<ProjectionStep>, after: seq<ProjectionStep>, n: nat) {
    && n <= |before| && (forall id :: id in Order(before[..n]) ==> id in ById(before))
    && Picks(EarlierPlaces(n), RemovedEntries(ById(before), ById(after), Order(before[..n])), Giving(before, after))
  }

  lemma NewEarlier(before: seq<ProjectionStep>, after: seq<ProjectionStep>, n: nat)
    requires n < |before| && EarlierPicked(before, after, n) && IsNew(before, n)
    ensures EarlierPicked(before, after, n + 1)
  {
    var ids, id, b, a := Order(before[..n]), before[n].id, ById(before), ById(after);
    NextOrder(before, n);
    ByIdHasId(before, id);
    OnePlace(before, after, Earlier(n), RemovedStep, id);
    assert (ids + [id])[..|ids|] == ids;
    assert Entry(b, a, RemovedStep, id) == When(id !in a, DiffEntry(RemovedStep, id, Some(b[id]), None));
    PicksConcat(EarlierPlaces(n), RemovedEntries(b, a, ids), [Earlier(n)], Entry(b, a, RemovedStep, id),
                Giving(before, after));
  }

  lemma EarlierGivesNothing(before: seq<ProjectionStep>, after: seq<ProjectionStep>, n: nat)
    requires n < |before| && !IsNew(before, n)
    ensures Picks([Earlier(n)], [], Giving(before, after))
  {
    forall p, e | p in [Earlier(n)]
      ensures !PlaceGives(before, after, p, e)
    {
    }
    NothingGiven(before, after, [Earlier(n)]);
  }

  lemma OldEarlier(before: seq<ProjectionStep>, after: seq<ProjectionStep>, n: nat)
    requires n < |before| && EarlierPicked(before, after, n) && !IsNew(before, n)
    ensures EarlierPicked(before, after, n + 1)
  {
    var entries := RemovedEntries(ById(before), ById(after), Order(before[..n]));
    NextOrder(before, n);
    EarlierGivesNothing(before, after, n);
    PicksConcat(EarlierPlaces(n), entries, [Earlier(n)], [], Giving(before, after));
    assert entries + [] == entries;
  }

  lemma NextEarlier(before: seq<ProjectionStep>, after: seq<ProjectionStep>, n: nat)
    requires n < |before| && EarlierPicked(before, after, n)
    ensures EarlierPicked(before, after, n + 1)
  {
    if IsNew(before, n) {
      NewEarlier(before, after, n);
    } else {
      OldEarlier(before, after, n);
    }
  }

  /**
   * The entries of a diff are what the places give, in their order and each once: first the later list
   * by the first mention of every id, kind by kind, then the removed ids of the earlier list.
   */
  lemma DiffListed(before: seq<ProjectionStep>, after: seq<ProjectionStep>)
    ensures Picks(LaterPlaces(|after|) + EarlierPlaces(|before|), Diff(before, after), Giving(before, after))
  {
    PicksNothing(Giving(before, after));
    assert after[..0] == [] && before[..0] == [];
    var later := (n: nat) => LaterPicked(before, after, n);
    forall n: nat | n < |after| && later(n)
      ensures later(n + 1)
    {
      NextLater(before, after, n);
    }
    Inductively(later, |after|);
    var earlier := (n: nat) => EarlierPicked(before, after, n);
    forall n: nat | n < |before| && earlier(n)
      ensures earlier(n + 1)
    {
      NextEarlier(before, after, n);
    }
    Inductively(earlier, |before|);
    assert after[..|after|] == after && before[..|before|] == before;
    OrderIsKeys(before);
    OrderIsKeys(after);
    PicksConcat(LaterPlaces(|after|), AfterEntries(ById(before), ById(after), Order(after)),
                EarlierPlaces(|before|), RemovedEntries(ById(before), ById(after), Order(before)),
                Giving(before, after));
  }

  // ----- No change is reported twice -----

  ghost predicate NoRepeats(entries: seq<DiffEntry>) {
    forall i, j :: 0 <= i < j < |entries| ==>
      entries[i].kind != entries[j].kind || entries[i].stepId != entries[j].stepId
  }

  lemma NoRepeatsConcat(x: seq<DiffEntry>, y: seq<DiffEntry>)
    requires NoRepeats(x) && NoRepeats(y)
    requires forall e, f :: e in x && f in y ==> e.kind != f.kind || e.stepId != f.stepId
    ensures NoRepeats(x + y)
  {
    forall i, j | 0 <= i < |x| && 0 <= j < |y|
      ensures x[i].kind != y[j].kind || x[i].stepId != y[j].stepId
    {
      assert x[i] in x && y[j] in y;
    }
  }

  /** Optional entries of four different kinds of change. */
  lemma FourChanges(c1: bool, e1: DiffEntry, c2: bool, e2: DiffEntry, c3: bool, e3: DiffEntry, c4: bool, e4: DiffEntry)
    requires e1.kind == ChangedAction && e2.kind == ChangedConnection
    requires e3.kind == ChangedExternalDelivery && e4.kind == ChangedBranchOrLoop
    ensures var entries := When(c1, e1) + When(c2, e2) + When(c3, e3) + When(c4, e4);
            NoRepeats(entries) &&
            forall k :: 0 <= k < |entries| ==> entries[k].kind != AddedStep && entries[k].kind != RemovedStep
  {
  }

  lemma EntriesForNoRepeats(before: map<string, ProjectionStep>, id: string, a: ProjectionStep)
    ensures NoRepeats(EntriesFor(before, id, a))
    ensures forall k :: 0 <= k < |EntriesFor(before, id, a)| ==>
              && EntriesFor(before, id, a)[k].kind != RemovedStep
              && (id in before ==> EntriesFor(before, id, a)[k].kind != AddedStep)
  {
    if id in before {
      var b := before[id];
      FourChanges(!SameAction(b, a), DiffEntry(ChangedAction, id, Some(b), Some(a)),
                  !SameConnections(b, a), DiffEntry(ChangedConnection, id, Some(b), Some(a)),
                  !SameDelivery(b, a), DiffEntry(ChangedExternalDelivery, id, Some(b), Some(a)),
                  !SameShape(b, a), DiffEntry(ChangedBranchOrLoop, id, Some(b), Some(a)));
    }
  }

  lemma {:induction false} AfterNoRepeats(before: map<string, ProjectionStep>, after: map<string, ProjectionStep>,
                                          ids: seq<string>)
    requires Distinct(ids) && forall id :: id in ids ==> id in after
    ensures NoRepeats(AfterEntries(before, after, ids))
  {
    if ids != [] {
      var rest, last := ids[..|ids| - 1], ids[|ids| - 1];
      AfterNoRepeats(before, after, rest);
      EntriesForNoRepeats(before, last, after[last]);
      forall e, f | e in AfterEntries(before, after, rest) && f in EntriesFor(before, last, after[last])
        ensures e.stepId != f.stepId
      {
        AfterHold(before, after, rest, e);
        EntriesForHold(before, after, last, f);
      }
      NoRepeatsConcat(AfterEntries(before, after, rest), EntriesFor(before, last, after[last]));
    }
  }

  lemma {:induction false} RemovedNoRepeats(before: map<string, ProjectionStep>, after: map<string, ProjectionStep>,
                                            ids: seq<string>)
    requires Distinct(ids) && forall id :: id in ids ==> id in before
    ensures NoRepeats(RemovedEntries(before, after, ids))
  {
    if ids != [] {
      var rest, last := ids[..|ids| - 1], ids[|ids| - 1];
      RemovedNoRepeats(before, after, rest);
      forall e | e in RemovedEntries(before, after, rest)
        ensures e.stepId != last
      {
        RemovedHold(before, after, rest, e);
      }
      var entry := DiffEntry(RemovedStep, last, Some(before[last]), None);
      NoRepeatsConcat(RemovedEntries(before, after, rest), When(last !in after, entry));
    }
  }

  /** No pair of a kind and an id is reported twice. */
  lemma DiffNoRepeats(before: seq<ProjectionStep>, after: seq<ProjectionStep>)
    ensures NoRepeats(Diff(before, after))
  {
    OrderIsKeys(before);
    OrderIsKeys(after);
    var b, a := ById(before), ById(after);
    AfterNoRepeats(b, a, Order(after));
    RemovedNoRepeats(b, a, Order(before));
    forall e, f | e in AfterEntries(b, a, Order(after)) && f in RemovedEntries(b, a, Order(before))
      ensures e.kind != f.kind
    {
      AfterHold(b, a, Order(after), e);
      RemovedHold(b, a, Order(before), f);
    }
    NoRepeatsConcat(AfterEntries(b, a, Order(after)), RemovedEntries(b, a, Order(before)));
  }

  // ----- Additions one way are removals the other way -----

  /** The ids reported with a kind, in order. */
  function IdsOfKind(entries: seq<DiffEntry>, kind: Kind): seq<string> {
    if entries == [] then []
    else
      IdsOfKind(entries[..|entries| - 1], kind)
      + var last := entries[|entries| - 1]; if last.kind == kind then [last.stepId] else []
  }

  lemma {:induction false} IdsOfKindConcat(x: seq<DiffEntry>, y: seq<DiffEntry>, kind: Kind)
    ensures IdsOfKind(x + y, kind) == IdsOfKind(x, kind) + IdsOfKind(y, kind)
    decreases |y|
  {
    if y == [] {
      assert x + y == x;
    } else {
      assert (x + y)[..|x + y| - 1] == x + y[..|y| - 1];
      IdsOfKindConcat(x, y[..|y| - 1], kind);
    }
  }

  /** The ids that a map does not hold. */
  function Missing(ids: seq<string>, m: map<string, ProjectionStep>): seq<string> {
    if ids == [] then []
    else Missing(ids[..|ids| - 1], m) + if ids[|ids| - 1] in m then [] else [ids[|ids| - 1]]
  }

  lemma {:induction false} IdsOfOtherKind(entries: seq<DiffEntry>, kind: Kind)
    requires forall k :: 0 <= k < |entries| ==> entries[k].kind != kind
    ensures IdsOfKind(entries, kind) == []
  {
    if entries != [] {
      IdsOfOtherKind(entries[..|entries| - 1], kind);
    }
  }

  lemma AddedForStep(before: map<string, ProjectionStep>, id: string, a: ProjectionStep)
    ensures IdsOfKind(EntriesFor(before, id, a), AddedStep) == if id in before then [] else [id]
    ensures IdsOfKind(EntriesFor(before, id, a), RemovedStep) == []
  {
    EntriesForNoRepeats(before, id, a);
    IdsOfOtherKind(EntriesFor(before, id, a), RemovedStep);
    if id in before {
      IdsOfOtherKind(EntriesFor(before, id, a), AddedStep);
    } else {
      var added := [DiffEntry(AddedStep, id, None, Some(a))];
      var forbidden := When(IsForbiddenPiece(a.requiredPiece), DiffEntry(NewForbiddenPiece, id, None, Some(a)));
      IdsOfKindConcat(added, forbidden, AddedStep);
      IdsOfOtherKind(forbidden, AddedStep);
      assert added[..0] == [];
    }
  }

  lemma {:induction false} AddedOfAfter(before: map<string, ProjectionStep>, after: map<string, ProjectionStep>,
                                        ids: seq<string>)
    requires forall id :: id in ids ==> id in after
    ensures IdsOfKind(AfterEntries(before, after, ids), AddedStep) == Missing(ids, before)
    ensures IdsOfKind(AfterEntries(before, after, ids), RemovedStep) == []
  {
    if ids != [] {
      var rest, last := ids[..|ids| - 1], ids[|ids| - 1];
      AddedOfAfter(before, after, rest);
      AddedForStep(before, last, after[last]);
      IdsOfKindConcat(AfterEntries(before, after, rest), EntriesFor(before, last, after[last]), AddedStep);
      IdsOfKindConcat(AfterEntries(before, after, rest), EntriesFor(before, last, after[last]), RemovedStep);
    }
  }

  lemma {:induction false} RemovedOfRemoved(before: map<string, ProjectionStep>, after: map<string, ProjectionStep>,
                                            ids: seq<string>)
    requires forall id :: id in ids ==> id in before
    ensures IdsOfKind(RemovedEntries(before, after, ids), RemovedStep) == Missing(ids, after)
    ensures IdsOfKind(RemovedEntries(before, after, ids), AddedStep) == []
  {
    if ids != [] {
      var rest, last := ids[..|ids| - 1], ids[|ids| - 1];
      RemovedOfRemoved(before, after, rest);
      var entry := DiffEntry(RemovedStep, last, Some(before[last]), None);
      var removed := When(last !in after, entry);
      IdsOfKindConcat(RemovedEntries(before, after, rest), removed, RemovedStep);
      IdsOfKindConcat(RemovedEntries(before, after, rest), removed, AddedStep);
      IdsOfOtherKind(removed, AddedStep);
      assert [entry][..0] == [];
    }
  }

  /** The ids added on the way there are the ids removed on the way back, in the same order. */
  lemma AddedAreRemovedBackwards(before: seq<ProjectionStep>, after: seq<ProjectionStep>)
    ensures IdsOfKind(Diff(before, after), AddedStep) == IdsOfKind(Diff(after, before), RemovedStep)
  {
    OrderIsKeys(before);
    OrderIsKeys(after);
    var b, a := ById(before), ById(after);
    AddedOfAfter(b, a, Order(after));
    RemovedOfRemoved(b, a, Order(before));
    AddedOfAfter(a, b, Order(before));
    RemovedOfRemoved(a, b, Order(after));
    IdsOfKindConcat(AfterEntries(b, a, Order(after)), RemovedEntries(b, a, Order(before)), AddedStep);
    IdsOfKindConcat(AfterEntries(a, b, Order(before)), RemovedEntries(a, b, Order(after)), RemovedStep);
  }

  // ----- A workflow against itself -----

  /** The last step with some id delivers to the outside. */
  ghost predicate Delivers(steps: seq<ProjectionStep>, id: string) {
    exists a :: IsLast(steps, id, a) && HasExternalDelivery(a.requiredPiece)
  }

  /** The same steps with other raw objects. */
  ghost predicate Renumbered(one: seq<ProjectionStep>, other: seq<ProjectionStep>) {
    && |one| == |other|
    && (forall i :: 0 <= i < |one| ==>
          one[i].(raw := other[i].raw) == other[i] && one[i].raw.action == other[i].raw.action)
    && forall i, j :: 0 <= i < |one| && 0 <= j < |other| ==> one[i].raw.identity != other[j].raw.identity
  }

  lemma RenumberedLast(one: seq<ProjectionStep>, other: seq<ProjectionStep>, id: string,
                       b: ProjectionStep, a: ProjectionStep)
    requires Renumbered(one, other) && IsLast(one, id, b) && IsLast(other, id, a)
    ensures SameAction(b, a) && SameConnections(b, a) && SameShape(b, a) && b.raw.identity != a.raw.identity
  {
    var i :| 0 <= i < |one| && one[i] == b && b.id == id && forall k :: i < k < |one| ==> one[k].id != id;
    var j :| 0 <= j < |other| && other[j] == a && a.id == id && forall k :: j < k < |other| ==> other[k].id != id;
    assert one[i].id == other[i].id && one[j].id == other[j].id;
    assert i == j;
  }

  lemma RenumberedIds(one: seq<ProjectionStep>, other: seq<ProjectionStep>, id: string)
    requires Renumbered(one, other)
    ensures HasId(one, id) <==> HasId(other, id)
  {
    if HasId(one, id) {
      var i :| 0 <= i < |one| && one[i].id == id;
      assert other[i].id == id;
    }
    if HasId(other, id) {
      var i :| 0 <= i < |other| && other[i].id == id;
      assert one[i].id == id;
    }
  }

  lemma DeliversById(steps: seq<ProjectionStep>, id: string)
    ensures Delivers(steps, id) <==> id in ById(steps) && HasExternalDelivery(ById(steps)[id].requiredPiece)
  {
    if id in ById(steps) {
      ByIdIsLast(steps, id, ById(steps)[id]);
    }
    if a :| IsLast(steps, id, a) {
      ByIdIsLast(steps, id, a);
    }
  }

  lemma RenumberedDue(one: seq<ProjectionStep>, other: seq<ProjectionStep>, kind: Kind, id: string)
    requires Renumbered(one, other)
    ensures Due(ById(one), ById(other), kind, id) <==>
            && kind == ChangedExternalDelivery
            && id in ById(other) && HasExternalDelivery(ById(other)[id].requiredPiece)
  {
    RenumberedIds(one, other, id);
    ByIdHasId(one, id);
    ByIdHasId(other, id);
    if id in ById(other) {
      ByIdIsLast(one, id, ById(one)[id]);
      ByIdIsLast(other, id, ById(other)[id]);
      RenumberedLast(one, other, id, ById(one)[id], ById(other)[id]);
    }
  }

  lemma RenumberedDiff(one: seq<ProjectionStep>, other: seq<ProjectionStep>, kind: Kind, id: string)
    requires Renumbered(one, other)
    ensures Reports(Diff(one, other), kind, id) <==> kind == ChangedExternalDelivery && Delivers(other, id)
  {
    DiffReports(one, other, kind, id);
    DueIsWarranted(one, other, kind, id);
    RenumberedDue(one, other, kind, id);
    DeliversById(other, id);
  }

  /**
   * Compiling and projecting the same workflow twice: the diff of the two results reports exactly
   * the steps with an external delivery piece, because their raw actions are different objects.
   */
  lemma RecompiledDiff(w: WorkflowLike, options: CompileOptions, f1: Flow, f2: Flow, base1: nat, base2: nat,
                       p1: Projection, p2: Projection, kind: Kind, id: string)
    requires IsCompiled(w, options, f1) && IsCompiled(w, options, f2)
    requires IsProjection(f1, base1, p1) && IsProjection(f2, base2, p2)
    requires base1 + |p1.steps| <= base2
    ensures Reports(Diff(p1.steps, p2.steps), kind, id) <==> kind == ChangedExternalDelivery && Delivers(p2.steps, id)
  {
    CompiledUnique(w, options, f1, f2);
    RenumberedDiff(p1.steps, p2.steps, kind, id);
  }
}
