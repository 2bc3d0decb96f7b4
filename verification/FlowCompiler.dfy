/** packages/workflow-compiler/src/index.ts: compiling a workflow to a flow and projecting a flow back to steps. */
module FlowCompiler {
  import opened Prelude
  import opened Json
  import opened Text
  import opened FlowActions
  import opened SortedStrings
  import opened Connections

  datatype StepLike = StepLike(
    id: Option<string>,
    name: Option<string>,
    title: Option<string>,
    stepType: Option<string>,
    moduleCode: Option<string>,
    input: Option<seq<Field>>,
    config: Option<seq<Field>>,
    metadata: Option<seq<Field>>)

  datatype WorkflowLike = WorkflowLike(name: Option<string>, title: Option<string>, steps: seq<StepLike>)

  datatype Trigger = Trigger(name: string, displayName: string, triggerType: string, settings: seq<Field>,
                             nextAction: Option<Action>)

  datatype CompileOptions = CompileOptions(displayName: Option<string>, trigger: Option<Trigger>,
                                           schemaVersion: Option<string>, state: Option<string>)

  datatype Flow = Flow(displayName: string, valid: bool, schemaVersion: string, state: string,
                       connectionIds: seq<string>, trigger: Trigger)

  // ----- One step -----

  /** The `activepieces` record of a step's metadata, if there is one. */
  function PieceMetadata(step: StepLike): Option<seq<Field>> {
    if step.metadata.None? then None
    else match Lookup(step.metadata.value, "activepieces")
      case Some(Obj(fields)) => Some(fields)
      case _ => None
  }

  function StringField(fields: Option<seq<Field>>, key: string): Option<string> {
    if fields.None? then None
    else match Lookup(fields.value, key)
      case Some(Str(s)) => Some(s)
      case _ => None
  }

  function OverrideType(step: StepLike): Option<string> {
    StringField(PieceMetadata(step), "type")
  }

  function OverrideSettings(step: StepLike): seq<Field> {
    if PieceMetadata(step).None? then []
    else match Lookup(PieceMetadata(step).value, "settings")
      case Some(Obj(fields)) => fields
      case _ => []
  }

  function InferPieceName(step: StepLike): string {
    match StringField(PieceMetadata(step), "pieceName")
    case Some(name) => name
    case None =>
      var moduleCode := OrElse(step.moduleCode, OrElse(step.stepType, ""));
      if "legal" <= moduleCode then "@lexframe/piece-legal"
      else if "document" <= moduleCode then "@lexframe/piece-document"
      else if "delivery" <= moduleCode then "@lexframe/piece-delivery"
      else if "workflow" <= moduleCode then "@lexframe/piece-callback"
      else "@lexframe/piece-gateway"
  }

  function InferActionName(step: StepLike): string {
    match StringField(PieceMetadata(step), "actionName")
    case Some(name) => name
    case None => OrElse(step.moduleCode, OrElse(step.stepType, "execute"))
  }

  function PieceSettings(step: StepLike): seq<Field> {
    [Field("pieceName", Str(InferPieceName(step))),
     Field("pieceVersion", Str("latest")),
     Field("actionName", Str(InferActionName(step))),
     Field("input", Obj(OrElse(step.input, OrElse(step.config, [])))),
     Field("propertySettings", Obj([])),
     Field("errorHandlingOptions", Obj([Field("continueOnFailure", Bool(false)), Field("retryOnFailure", Bool(true))]))]
  }

  function StepName(step: StepLike, index: nat): string {
    OrElse(step.id, "step_" + Decimal(index + 1))
  }

  function StepDisplayName(step: StepLike, index: nat): string {
    OrElse(step.title, OrElse(step.name, "Step " + Decimal(index + 1)))
  }

  function CompileStep(step: StepLike, index: nat): Action {
    match OverrideType(step)
    case Some(t) =>
      Action(StepName(step, index), StepDisplayName(step, index), t, OverrideSettings(step), None, None, [])
    case None =>
      Action(StepName(step, index), StepDisplayName(step, index), "PIECE", PieceSettings(step), None, None, [])
  }

  // ----- A workflow -----

  const MANUAL_TRIGGER := Trigger(
    "trigger", "Manual Trigger", "PIECE_TRIGGER",
    [Field("pieceName", Str("@activepieces/piece-manual-trigger")),
     Field("pieceVersion", Str("latest")),
     Field("triggerName", Str("manual_trigger")),
     Field("input", Obj([])),
     Field("propertySettings", Obj([])),
     Field("sampleData", Obj([]))],
    None)

  function CompiledActions(w: WorkflowLike): (actions: seq<Action>)
    ensures |actions| == |w.steps|
    ensures forall i :: 0 <= i < |w.steps| ==> actions[i] == CompileStep(w.steps[i], i)
  {
    seq(|w.steps|, i requires 0 <= i < |w.steps| => CompileStep(w.steps[i], i))
  }

  /** `flow` is what the workflow compiles to; its connection ids are pinned by their order and content. */
  ghost predicate IsCompiled(w: WorkflowLike, options: CompileOptions, flow: Flow) {
    && flow.displayName == OrElse(options.displayName, OrElse(w.title, OrElse(w.name, "LexFrame Automation")))
    && flow.valid
    && flow.schemaVersion == OrElse(options.schemaVersion, "20")
    && flow.state == OrElse(options.state, "DRAFT")
    && flow.trigger == OrElse(options.trigger, MANUAL_TRIGGER).(nextAction := Chain(CompiledActions(w)))
    && StrictlySorted(flow.connectionIds)
    && forall s :: s in flow.connectionIds <==> s in ConnectionsOfAll(CompiledActions(w))
  }

  method CompileWorkflow(w: WorkflowLike, options: CompileOptions) returns (flow: Flow)
    ensures IsCompiled(w, options, flow)
  {
    var actions := CompiledActions(w);
    var nextAction := ChainActions(actions);
    var connectionIds := ExtractConnectionIds(actions);
    flow := Flow(OrElse(options.displayName, OrElse(w.title, OrElse(w.name, "LexFrame Automation"))),
                 true,
                 OrElse(options.schemaVersion, "20"),
                 OrElse(options.state, "DRAFT"),
                 connectionIds,
                 OrElse(options.trigger, MANUAL_TRIGGER).(nextAction := nextAction));
  }

  /** Compilation is deterministic. */
  lemma CompiledUnique(w: WorkflowLike, options: CompileOptions, one: Flow, other: Flow)
    requires IsCompiled(w, options, one) && IsCompiled(w, options, other)
    ensures one == other
  {
    SortedUnique(one.connectionIds, other.connectionIds);
  }

  // ----- Back to steps -----

  /** An action as an object: two objects are the same one exactly when their identities agree. */
  datatype ObjectRef = ObjectRef(identity: nat, action: Action)

  datatype ProjectionStep = ProjectionStep(
    id: string,
    displayName: string,
    activepiecesType: string,
    lexFrameType: string,
    requiredPiece: Option<string>,
    raw: ObjectRef)

  datatype Projection = Projection(
    displayName: string,
    schemaVersion: string,
    triggerType: string,
    steps: seq<ProjectionStep>,
    containsExternalAdvancedStep: bool,
    warnings: seq<string>)

  function LexFrameType(actionType: string): string {
    if actionType == "PIECE" then "piece_step"
    else if actionType == "CODE" then "code_step"
    else if actionType == "LOOP_ON_ITEMS" then "loop_step"
    else if actionType == "ROUTER" then "router_step"
    else "external_advanced_step"
  }

  /** The action type has no LexFrame counterpart of its own. */
  predicate Advanced(a: Action) {
    LexFrameType(a.actionType) == "external_advanced_step"
  }

  function ProjectAction(raw: ObjectRef): ProjectionStep {
    var a := raw.action;
    ProjectionStep(a.name, a.displayName, a.actionType, LexFrameType(a.actionType),
                   StringField(Some(a.settings), "pieceName"), raw)
  }

  function Warning(a: Action): string {
    "Preserved unsupported Activepieces action " + a.name + " as external_advanced_step."
  }

  function Warnings(actions: seq<Action>): seq<string> {
    if actions == [] then []
    else
      var last := actions[|actions| - 1];
      Warnings(actions[..|actions| - 1])
      + if Advanced(last) then [Warning(last)] else []
  }

  /**
   * `projection` is the projection of a flow whose actions, in flattening order, are the objects
   * numbered from `base`.
   */
  ghost predicate IsProjection(flow: Flow, base: nat, projection: Projection) {
    var actions := Flatten(flow.trigger.nextAction);
    && projection.displayName == flow.displayName
    && projection.schemaVersion == flow.schemaVersion
    && projection.triggerType == flow.trigger.triggerType
    && projection.steps == Projected(actions, base)
    && projection.warnings == Warnings(actions)
    && (projection.containsExternalAdvancedStep <==>
          exists i :: 0 <= i < |actions| && Advanced(actions[i]))
  }

  /** The projected steps; the `i`-th action is the object `base + i`. */
  function Projected(actions: seq<Action>, base: nat): (steps: seq<ProjectionStep>)
    ensures |steps| == |actions|
    ensures forall i :: 0 <= i < |actions| ==> steps[i] == ProjectAction(ObjectRef(base + i, actions[i]))
  {
    if actions == [] then []
    else
      var n := |actions| - 1;
      Projected(actions[..n], base) + [ProjectAction(ObjectRef(base + n, actions[n]))]
  }

  lemma NextProjected(actions: seq<Action>, base: nat, i: nat)
    requires i < |actions|
    ensures Projected(actions[..i + 1], base) ==
            Projected(actions[..i], base) + [ProjectAction(ObjectRef(base + i, actions[i]))]
    ensures Warnings(actions[..i + 1]) ==
            Warnings(actions[..i]) + if Advanced(actions[i]) then [Warning(actions[i])] else []
  {
    assert actions[..i + 1][..i] == actions[..i];
  }

  method ProjectActions(actions: seq<Action>, base: nat) returns (steps: seq<ProjectionStep>, warnings: seq<string>)
    ensures steps == Projected(actions, base)
    ensures warnings == Warnings(actions)
  {
    warnings, steps := [], [];
    for i := 0 to |actions|
      invariant warnings == Warnings(actions[..i])
      invariant steps == Projected(actions[..i], base)
    {
      NextProjected(actions, base, i);
      if Advanced(actions[i]) {
        warnings := warnings + [Warning(actions[i])];
      }
      steps := steps + [ProjectAction(ObjectRef(base + i, actions[i]))];
    }
    assert actions[..|actions|] == actions;
  }

  method ReverseSync(flow: Flow, base: nat) returns (projection: Projection)
    ensures IsProjection(flow, base, projection)
  {
    var actions := Flatten(flow.trigger.nextAction);
    var steps, warnings := ProjectActions(actions, base);
    projection := Projection(flow.displayName, flow.schemaVersion, flow.trigger.triggerType, steps,
                             exists i :: 0 <= i < |steps| && steps[i].lexFrameType == "external_advanced_step",
                             warnings);
    assert forall i :: 0 <= i < |actions| ==>
      (steps[i].lexFrameType == "external_advanced_step" <==> Advanced(actions[i]));
  }

  // ----- Compiling and projecting back -----

  const KNOWN_TYPES: set<string> := {"PIECE", "CODE", "LOOP_ON_ITEMS", "ROUTER"}

  /** A step whose metadata asks for an action type the projection has no word for. */
  ghost predicate ForeignType(step: StepLike) {
    OverrideType(step).Some? && OverrideType(step).value !in KNOWN_TYPES
  }

  /** What the projection says of one workflow step. */
  ghost predicate Mirrors(step: StepLike, index: nat, projected: ProjectionStep) {
    && projected.id == StepName(step, index)
    && projected.displayName == StepDisplayName(step, index)
    && projected.activepiecesType == OrElse(OverrideType(step), "PIECE")
    && (projected.lexFrameType == "external_advanced_step" <==> ForeignType(step))
    && projected.requiredPiece ==
       (if OverrideType(step).Some? then StringField(Some(OverrideSettings(step)), "pieceName")
        else Some(InferPieceName(step)))
  }

  /** No action of the list is of a foreign type. */
  ghost predicate NoneAdvanced(actions: seq<Action>) {
    forall i :: 0 <= i < |actions| ==> !Advanced(actions[i])
  }

  lemma NoneAdvancedSnoc(actions: seq<Action>)
    requires actions != []
    ensures NoneAdvanced(actions) <==> NoneAdvanced(actions[..|actions| - 1]) && !Advanced(actions[|actions| - 1])
  {
    assert forall i :: 0 <= i < |actions| - 1 ==> actions[..|actions| - 1][i] == actions[i];
  }

  lemma {:induction false} WarningsEmpty(actions: seq<Action>)
    ensures Warnings(actions) == [] <==> NoneAdvanced(actions)
  {
    if actions != [] {
      WarningsEmpty(actions[..|actions| - 1]);
      NoneAdvancedSnoc(actions);
    }
  }

  lemma CompiledFlattens(w: WorkflowLike, options: CompileOptions, flow: Flow)
    requires IsCompiled(w, options, flow)
    ensures |Flatten(flow.trigger.nextAction)| == |w.steps|
    ensures forall i :: 0 <= i < |w.steps| ==>
              Unlinked(Flatten(flow.trigger.nextAction)[i]) == CompileStep(w.steps[i], i)
  {
    FlattenChain(CompiledActions(w));
  }

  lemma ActionMirrors(step: StepLike, index: nat, raw: ObjectRef)
    requires Unlinked(raw.action) == CompileStep(step, index)
    ensures Mirrors(step, index, ProjectAction(raw))
  {
    var compiled := CompileStep(step, index);
    assert raw.action.settings == compiled.settings && raw.action.actionType == compiled.actionType;
    assert raw.action.name == compiled.name && raw.action.displayName == compiled.displayName;
    if OverrideType(step).None? {
      assert PieceSettings(step)[0].key == "pieceName";
    }
  }

  /**
   * Compiling and projecting back keeps the structure: one step per workflow step, in order, with
   * its id, title, type and piece; a warning and the external flag appear exactly for foreign types.
   */
  lemma CompileThenReverseSync(w: WorkflowLike, options: CompileOptions, flow: Flow, base: nat, projection: Projection)
    requires IsCompiled(w, options, flow) && IsProjection(flow, base, projection)
    ensures |projection.steps| == |w.steps|
    ensures forall i :: 0 <= i < |w.steps| ==> Mirrors(w.steps[i], i, projection.steps[i])
    ensures projection.warnings != [] <==> exists i :: 0 <= i < |w.steps| && ForeignType(w.steps[i])
    ensures projection.containsExternalAdvancedStep <==> projection.warnings != []
  {
    CompiledFlattens(w, options, flow);
    var actions := Flatten(flow.trigger.nextAction);
    WarningsEmpty(actions);
    forall i | 0 <= i < |w.steps|
      ensures Mirrors(w.steps[i], i, projection.steps[i])
      ensures Advanced(actions[i]) <==> ForeignType(w.steps[i])
    {
      ActionMirrors(w.steps[i], i, ObjectRef(base + i, actions[i]));
    }
  }

  lemma SettingsSurvive(w: WorkflowLike, options: CompileOptions, flow: Flow)
    requires IsCompiled(w, options, flow)
    ensures ConnectionsOfAll(CompiledActions(w)) == ConnectionsOfAll(Flatten(flow.trigger.nextAction))
  {
    CompiledFlattens(w, options, flow);
    var actions, flat := CompiledActions(w), Flatten(flow.trigger.nextAction);
    forall i | 0 <= i < |actions|
      ensures actions[i].settings == flat[i].settings
    {
      assert Unlinked(flat[i]).settings == flat[i].settings;
    }
    assert forall s :: s in ConnectionsOfAll(actions) ==> s in ConnectionsOfAll(flat);
    assert forall s :: s in ConnectionsOfAll(flat) ==> s in ConnectionsOfAll(actions);
  }

  lemma AllConnectionsExact(actions: seq<Action>, s: string)
    requires forall a :: a in actions ==> WellFormed(Obj(a.settings))
    ensures s in ConnectionsOfAll(actions) <==> exists a, path :: a in actions && Names(Obj(a.settings), path, s)
  {
    if s in ConnectionsOfAll(actions) {
      var i :| 0 <= i < |actions| && s in ConnectionsOf(actions[i].settings);
      assert actions[i] in actions;
      ConnectionsExact(actions[i].settings, s);
      var path :| Names(Obj(actions[i].settings), path, s);
      assert actions[i] in actions && Names(Obj(actions[i].settings), path, s);
    }
    if a, path :| a in actions && Names(Obj(a.settings), path, s) {
      var i :| 0 <= i < |actions| && actions[i] == a;
      ConnectionsExact(a.settings, s);
    }
  }

  /**
   * The connection ids of a compiled flow are sorted without repetition and are exactly the strings
   * that some action reachable from the trigger names under a connection key at any depth.
   */
  lemma ConnectionIdsExact(w: WorkflowLike, options: CompileOptions, flow: Flow, s: string)
    requires IsCompiled(w, options, flow)
    requires forall a :: a in Flatten(flow.trigger.nextAction) ==> WellFormed(Obj(a.settings))
    ensures StrictlySorted(flow.connectionIds)
    ensures s in flow.connectionIds <==>
            exists a, path :: a in Flatten(flow.trigger.nextAction) && Names(Obj(a.settings), path, s)
  {
    SettingsSurvive(w, options, flow);
    AllConnectionsExact(Flatten(flow.trigger.nextAction), s);
  }

  // ----- What is compiled and projected, read off the workflow and the flow -----

  /** What the `activepieces` record of a step's metadata has under a key. */
  function MetaAt(step: StepLike, key: string): Option<Json> {
    if step.metadata.None? then None else At(Obj(step.metadata.value), [Key("activepieces"), Key(key)])
  }

  predicate IsText(v: Option<Json>) {
    v.Some? && v.value.Str?
  }

  predicate IsRecord(v: Option<Json>) {
    v.Some? && v.value.Obj?
  }

  /** The module code that names a piece or an action: the step's own, or its type, or neither. */
  ghost predicate Codes(step: StepLike, default: string, code: string) {
    match (step.moduleCode, step.stepType)
    case (Some(m), _) => code == m
    case (None, Some(t)) => code == t
    case (None, None) => code == default
  }

  ghost predicate PieceFor(step: StepLike, piece: string) {
    if IsText(MetaAt(step, "pieceName")) then MetaAt(step, "pieceName") == Some(Str(piece))
    else
      exists code :: Codes(step, "", code) &&
        piece == if "legal" <= code then "@lexframe/piece-legal"
                 else if "document" <= code then "@lexframe/piece-document"
                 else if "delivery" <= code then "@lexframe/piece-delivery"
                 else if "workflow" <= code then "@lexframe/piece-callback"
                 else "@lexframe/piece-gateway"
  }

  ghost predicate ActionFor(step: StepLike, action: string) {
    if IsText(MetaAt(step, "actionName")) then MetaAt(step, "actionName") == Some(Str(action))
    else Codes(step, "execute", action)
  }

  /** The record a step is run with. */
  ghost predicate InputFor(step: StepLike, input: seq<Field>) {
    match (step.input, step.config)
    case (Some(fields), _) => input == fields
    case (None, Some(fields)) => input == fields
    case (None, None) => input == []
  }

  /** The settings of a step that runs a piece. */
  ghost predicate RunsPiece(step: StepLike, settings: seq<Field>) {
    && (exists piece :: PieceFor(step, piece) && At(Obj(settings), [Key("pieceName")]) == Some(Str(piece)))
    && At(Obj(settings), [Key("pieceVersion")]) == Some(Str("latest"))
    && (exists action :: ActionFor(step, action) && At(Obj(settings), [Key("actionName")]) == Some(Str(action)))
    && (exists input :: InputFor(step, input) && At(Obj(settings), [Key("input")]) == Some(Obj(input)))
    && At(Obj(settings), [Key("propertySettings")]) == Some(Obj([]))
    && At(Obj(settings), [Key("errorHandlingOptions"), Key("continueOnFailure")]) == Some(Bool(false))
    && At(Obj(settings), [Key("errorHandlingOptions"), Key("retryOnFailure")]) == Some(Bool(true))
    && forall key :: At(Obj(settings), [Key(key)]).Some? ==>
         key in {"pieceName", "pieceVersion", "actionName", "input", "propertySettings", "errorHandlingOptions"}
  }

  /** The action that a step compiles to, but for its link. */
  ghost predicate CompiledAs(step: StepLike, index: nat, a: Action) {
    && a.firstLoopAction == None && a.children == []
    && (match step.id case Some(id) => a.name == id case None => a.name == "step_" + Decimal(index + 1))
    && (match (step.title, step.name)
        case (Some(title), _) => a.displayName == title
        case (None, Some(name)) => a.displayName == name
        case (None, None) => a.displayName == "Step " + Decimal(index + 1))
    && if IsText(MetaAt(step, "type")) then
         && MetaAt(step, "type") == Some(Str(a.actionType))
         && if IsRecord(MetaAt(step, "settings")) then MetaAt(step, "settings") == Some(Obj(a.settings))
            else a.settings == []
       else
         a.actionType == "PIECE" && RunsPiece(step, a.settings)
  }

  lemma AtOne(fields: seq<Field>, key: string)
    ensures At(Obj(fields), [Key(key)]) == Lookup(fields, key)
  {
    assert [Key(key)][1..] == [];
    match Lookup(fields, key)
    case None =>
    case Some(child) => assert At(child, []) == Some(child);
  }

  lemma AtTwo(fields: seq<Field>, first: string, second: string)
    ensures var child := Lookup(fields, first);
            At(Obj(fields), [Key(first), Key(second)]) ==
            if child.Some? && child.value.Obj? then Lookup(child.value.fields, second) else None
  {
    assert [Key(first), Key(second)][1..] == [Key(second)];
    var child := Lookup(fields, first);
    if child.Some? {
      if child.value.Obj? {
        AtOne(child.value.fields, second);
      } else {
        assert Into(child.value, Key(second)) == None;
      }
    }
  }

  lemma MetaIs(step: StepLike, key: string)
    ensures MetaAt(step, key) == if PieceMetadata(step).None? then None else Lookup(PieceMetadata(step).value, key)
  {
    if step.metadata.Some? {
      AtTwo(step.metadata.value, "activepieces", key);
    }
  }

  /** The settings of a piece by key. */
  lemma PieceSettingsHold(step: StepLike, key: string)
    ensures Lookup(PieceSettings(step), key) ==
            if key == "pieceName" then Some(Str(InferPieceName(step)))
            else if key == "pieceVersion" then Some(Str("latest"))
            else if key == "actionName" then Some(Str(InferActionName(step)))
            else if key == "input" then Some(Obj(OrElse(step.input, OrElse(step.config, []))))
            else if key == "propertySettings" then Some(Obj([]))
            else if key == "errorHandlingOptions" then
              Some(Obj([Field("continueOnFailure", Bool(false)), Field("retryOnFailure", Bool(true))]))
            else None
  {
    var s := PieceSettings(step);
    assert s[1..][0] == s[1] && s[1..][1..] == s[2..];
    assert s[2..][0] == s[2] && s[2..][1..] == s[3..];
    assert s[3..][0] == s[3] && s[3..][1..] == s[4..];
    assert s[4..][0] == s[4] && s[4..][1..] == s[5..];
    assert s[5..][0] == s[5] && s[5..][1..] == [];
    assert Lookup(s[5..], key) == if s[5].key == key then Some(s[5].value) else None;
    assert Lookup(s[4..], key) == if s[4].key == key then Some(s[4].value) else Lookup(s[5..], key);
    assert Lookup(s[3..], key) == if s[3].key == key then Some(s[3].value) else Lookup(s[4..], key);
    assert Lookup(s[2..], key) == if s[2].key == key then Some(s[2].value) else Lookup(s[3..], key);
    assert Lookup(s[1..], key) == if s[1].key == key then Some(s[1].value) else Lookup(s[2..], key);
  }

  lemma HandlingHolds()
    ensures var options := [Field("continueOnFailure", Bool(false)), Field("retryOnFailure", Bool(true))];
            && Lookup(options, "continueOnFailure") == Some(Bool(false))
            && Lookup(options, "retryOnFailure") == Some(Bool(true))
  {
    var options := [Field("continueOnFailure", Bool(false)), Field("retryOnFailure", Bool(true))];
    assert options[1..][0] == options[1];
  }

  lemma PieceNamed(step: StepLike)
    ensures PieceFor(step, InferPieceName(step)) && ActionFor(step, InferActionName(step))
  {
    MetaIs(step, "pieceName");
    MetaIs(step, "actionName");
    assert Codes(step, "", OrElse(step.moduleCode, OrElse(step.stepType, "")));
  }

  lemma PieceRuns(step: StepLike)
    ensures RunsPiece(step, PieceSettings(step))
  {
    var settings := PieceSettings(step);
    forall key
      ensures At(Obj(settings), [Key(key)]) == Lookup(settings, key)
    {
      AtOne(settings, key);
    }
    PieceSettingsHold(step, "pieceName");
    PieceSettingsHold(step, "pieceVersion");
    PieceSettingsHold(step, "actionName");
    PieceSettingsHold(step, "input");
    PieceSettingsHold(step, "propertySettings");
    PieceSettingsHold(step, "errorHandlingOptions");
    AtTwo(settings, "errorHandlingOptions", "continueOnFailure");
    AtTwo(settings, "errorHandlingOptions", "retryOnFailure");
    HandlingHolds();
    PieceNamed(step);
    assert InputFor(step, OrElse(step.input, OrElse(step.config, [])));
    forall key | At(Obj(settings), [Key(key)]).Some?
      ensures key in {"pieceName", "pieceVersion", "actionName", "input", "propertySettings", "errorHandlingOptions"}
    {
      PieceSettingsHold(step, key);
    }
  }

  lemma StepCompiled(step: StepLike, index: nat)
    ensures CompiledAs(step, index, CompileStep(step, index))
  {
    MetaIs(step, "type");
    MetaIs(step, "settings");
    PieceRuns(step);
  }

  /** The trigger of a flow, but for its link, when none is asked for. */
  ghost predicate IsManual(t: Trigger) {
    && t.name == "trigger" && t.displayName == "Manual Trigger" && t.triggerType == "PIECE_TRIGGER"
    && At(Obj(t.settings), [Key("pieceName")]) == Some(Str("@activepieces/piece-manual-trigger"))
    && At(Obj(t.settings), [Key("triggerName")]) == Some(Str("manual_trigger"))
    && At(Obj(t.settings), [Key("pieceVersion")]) == Some(Str("latest"))
  }

  lemma ManualTrigger()
    ensures IsManual(MANUAL_TRIGGER)
  {
    var s := MANUAL_TRIGGER.settings;
    AtOne(s, "pieceName");
    AtOne(s, "triggerName");
    AtOne(s, "pieceVersion");
    assert s[1..][0] == s[1] && s[1..][1..] == s[2..] && s[2..][0] == s[2];
    assert Lookup(s[2..], "triggerName") == Some(s[2].value);
    assert Lookup(s[1..], "triggerName") == Some(s[2].value);
    assert Lookup(s[1..], "pieceVersion") == Some(s[1].value);
  }

  /** The head of a flow: what is asked for, else the workflow's own title or name, else the defaults. */
  ghost predicate HeadedBy(w: WorkflowLike, options: CompileOptions, flow: Flow) {
    && flow.valid
    && (options.displayName.Some? ==> flow.displayName == options.displayName.value)
    && (options.displayName == None && w.title.Some? ==> flow.displayName == w.title.value)
    && (options.displayName == None && w.title == None && w.name.Some? ==> flow.displayName == w.name.value)
    && (options.displayName == None && w.title == None && w.name == None ==>
          flow.displayName == "LexFrame Automation")
    && (options.schemaVersion.Some? ==> flow.schemaVersion == options.schemaVersion.value)
    && (options.schemaVersion == None ==> flow.schemaVersion == "20")
    && (options.state.Some? ==> flow.state == options.state.value)
    && (options.state == None ==> flow.state == "DRAFT")
  }

  /**
   * A compiled flow, read off the workflow: its flattened actions are one per step and in order, each
   * with the name, title, type and settings the step asks for.
   */
  lemma CompiledExact(w: WorkflowLike, options: CompileOptions, flow: Flow)
    requires IsCompiled(w, options, flow)
    ensures var actions := Flatten(flow.trigger.nextAction);
            && |actions| == |w.steps|
            && forall i :: 0 <= i < |w.steps| ==> CompiledAs(w.steps[i], i, actions[i])
    ensures if options.trigger == None then IsManual(flow.trigger)
            else flow.trigger.(nextAction := None) == options.trigger.value.(nextAction := None)
    ensures HeadedBy(w, options, flow)
  {
    CompiledFlattens(w, options, flow);
    ManualTrigger();
    var actions := Flatten(flow.trigger.nextAction);
    forall i | 0 <= i < |w.steps|
      ensures CompiledAs(w.steps[i], i, actions[i])
    {
      StepCompiled(w.steps[i], i);
      assert Unlinked(actions[i]) == CompileStep(w.steps[i], i);
    }
  }

  // ----- Which connections a workflow names -----

  /** A step names a connection in the record it is run with, or in its own settings when it has a type of its own. */
  ghost predicate StepNames(step: StepLike, s: string) {
    if IsText(MetaAt(step, "type")) then
      IsRecord(MetaAt(step, "settings")) && exists path :: Names(MetaAt(step, "settings").value, path, s)
    else
      exists input, path :: InputFor(step, input) && Names(Obj(input), path, s)
  }

  /** No record of the step holds a key twice, as in every record that was parsed. */
  ghost predicate ProperRecords(step: StepLike) {
    && (step.input.Some? ==> WellFormed(Obj(step.input.value)))
    && (step.config.Some? ==> WellFormed(Obj(step.config.value)))
    && (step.metadata.Some? ==> WellFormed(Obj(step.metadata.value)))
  }

  lemma PieceSettingsProper(step: StepLike)
    requires ProperRecords(step)
    ensures WellFormed(Obj(PieceSettings(step)))
  {
    var s := PieceSettings(step);
    assert WellFormed(s[3].value);
    assert WellFormed(Obj([])) && WellFormed(s[5].value);
  }

  lemma {:induction false} LookupProper(fields: seq<Field>, key: string)
    requires WellFormed(Obj(fields)) && Lookup(fields, key).Some?
    ensures WellFormed(Lookup(fields, key).value)
  {
    var i := LookupFound(fields, key);
  }

  lemma CompiledProper(step: StepLike, index: nat)
    requires ProperRecords(step)
    ensures WellFormed(Obj(CompileStep(step, index).settings))
  {
    PieceSettingsProper(step);
    if PieceMetadata(step).Some? {
      LookupProper(step.metadata.value, "activepieces");
      if Lookup(PieceMetadata(step).value, "settings").Some? {
        LookupProper(PieceMetadata(step).value, "settings");
      }
    }
    assert WellFormed(Obj([]));
  }

  /** The only setting of a piece that can name a connection is its input. */
  lemma PieceNames(step: StepLike, s: string)
    ensures (exists path :: Names(Obj(PieceSettings(step)), path, s)) <==>
            exists path :: Names(Obj(OrElse(step.input, OrElse(step.config, []))), path, s)
  {
    var settings, input := Obj(PieceSettings(step)), Obj(OrElse(step.input, OrElse(step.config, [])));
    PieceSettingsHold(step, "input");
    if path :| Names(input, path, s) {
      NamesBehind(settings, Key("input"), path, s);
      assert Names(settings, [Key("input")] + path, s);
    }
    if path :| Names(settings, path, s) {
      OnlyInputNames(step, path, s);
      assert Names(input, path[1..], s);
    }
  }

  lemma OnlyInputNames(step: StepLike, path: seq<Segment>, s: string)
    requires Names(Obj(PieceSettings(step)), path, s)
    ensures Names(Obj(OrElse(step.input, OrElse(step.config, []))), path[1..], s)
  {
    NamesInto(Obj(PieceSettings(step)), path, s);
    PieceSettingsHold(step, path[0].key);
    if |path| > 1 && path[0] != Key("input") {
      var child := Into(Obj(PieceSettings(step)), path[0]).value;
      NamesInto(child, path[1..], s);
      HandlingNamesNothing(child, path[1..], s);
      assert false;
    }
  }

  lemma HandlingNamesNothing(child: Json, path: seq<Segment>, s: string)
    requires child.Str? || child == Obj([]) ||
             child == Obj([Field("continueOnFailure", Bool(false)), Field("retryOnFailure", Bool(true))])
    ensures !Names(child, path, s)
  {
    if Names(child, path, s) {
      NamesInto(child, path, s);
      if child.Obj? && child.fields != [] {
        var k := LookupFound(child.fields, path[0].key);
        var next := Into(child, path[0]).value;
        if |path| > 1 {
          NamesInto(next, path[1..], s);
        }
      }
      assert false;
    }
  }

  lemma StepNamesIff(step: StepLike, index: nat, s: string)
    requires ProperRecords(step)
    ensures StepNames(step, s) <==> s in ConnectionsOf(CompileStep(step, index).settings)
  {
    var settings := CompileStep(step, index).settings;
    CompiledProper(step, index);
    ConnectionsExact(settings, s);
    MetaIs(step, "type");
    MetaIs(step, "settings");
    if OverrideType(step).None? {
      PieceNames(step, s);
      assert forall input :: InputFor(step, input) <==> input == OrElse(step.input, OrElse(step.config, []));
    } else if OverrideSettings(step) == [] {
      EmptyNamesNothing(s);
    }
  }

  lemma EmptyNamesNothing(s: string)
    ensures forall path :: !Names(Obj([]), path, s)
  {
    forall path
      ensures !Names(Obj([]), path, s)
    {
      HandlingNamesNothing(Obj([]), path, s);
    }
  }

  /**
   * The connection ids of a compiled flow, read off the workflow: the strings found at any depth under
   * a connection key in what a step is run with, or in the settings it brings along.
   */
  lemma ConnectionsOfSteps(w: WorkflowLike, options: CompileOptions, flow: Flow, s: string)
    requires IsCompiled(w, options, flow) && forall i :: 0 <= i < |w.steps| ==> ProperRecords(w.steps[i])
    ensures s in flow.connectionIds <==> exists i :: 0 <= i < |w.steps| && StepNames(w.steps[i], s)
  {
    var actions := CompiledActions(w);
    forall i | 0 <= i < |w.steps|
      ensures StepNames(w.steps[i], s) <==> s in ConnectionsOf(actions[i].settings)
    {
      StepNamesIff(w.steps[i], i, s);
    }
    assert s in ConnectionsOfAll(actions) <==>
        exists i :: 0 <= i < |actions| && s in ConnectionsOf(actions[i].settings);
  }

  // ----- What is projected -----

  /** What the projection says of an action. */
  ghost predicate ProjectedAs(a: Action, step: ProjectionStep) {
    && step.id == a.name && step.displayName == a.displayName && step.activepiecesType == a.actionType
    && step.raw.action == a
    && (a.actionType == "PIECE" ==> step.lexFrameType == "piece_step")
    && (a.actionType == "CODE" ==> step.lexFrameType == "code_step")
    && (a.actionType == "LOOP_ON_ITEMS" ==> step.lexFrameType == "loop_step")
    && (a.actionType == "ROUTER" ==> step.lexFrameType == "router_step")
    && (a.actionType !in {"PIECE", "CODE", "LOOP_ON_ITEMS", "ROUTER"} ==> step.lexFrameType == "external_advanced_step")
    && match At(Obj(a.settings), [Key("pieceName")])
       case Some(Str(piece)) => step.requiredPiece == Some(piece)
       case _ => step.requiredPiece == None
  }

  /** The warning that an action of an unknown type gives. */
  ghost predicate Warns(a: Action, text: string) {
    && a.actionType !in {"PIECE", "CODE", "LOOP_ON_ITEMS", "ROUTER"}
    && text == "Preserved unsupported Activepieces action " + a.name + " as external_advanced_step."
  }

  ghost function WarningGiven(): (Action, string) -> bool {
    (a: Action, text: string) => Warns(a, text)
  }

  lemma {:induction false} WarningsPicked(actions: seq<Action>)
    ensures Picks(actions, Warnings(actions), WarningGiven())
  {
    if actions != [] {
      var front, last := actions[..|actions| - 1], actions[|actions| - 1];
      WarningsPicked(front);
      PicksLast(actions, last, Warnings(front), WarningGiven(), if Advanced(last) then [Warning(last)] else []);
    }
  }

  /** A projection, read off the flow: one step and possibly one warning for each of its actions, in order. */
  lemma ProjectionExact(flow: Flow, base: nat, projection: Projection)
    requires IsProjection(flow, base, projection)
    ensures var actions := Flatten(flow.trigger.nextAction);
            && |projection.steps| == |actions|
            && (forall i :: 0 <= i < |actions| ==> ProjectedAs(actions[i], projection.steps[i]))
            && projection.displayName == flow.displayName && projection.schemaVersion == flow.schemaVersion
            && projection.triggerType == flow.trigger.triggerType
            && Picks(actions, projection.warnings, WarningGiven())
            && (projection.containsExternalAdvancedStep <==>
                  exists i :: 0 <= i < |actions| &&
                              actions[i].actionType !in {"PIECE", "CODE", "LOOP_ON_ITEMS", "ROUTER"})
  {
    var actions := Flatten(flow.trigger.nextAction);
    WarningsPicked(actions);
    forall i | 0 <= i < |actions|
      ensures ProjectedAs(actions[i], projection.steps[i])
    {
      AtOne(actions[i].settings, "pieceName");
    }
    assert forall i :: 0 <= i < |actions| ==>
        (Advanced(actions[i]) <==> actions[i].actionType !in {"PIECE", "CODE", "LOOP_ON_ITEMS", "ROUTER"});
  }
}
