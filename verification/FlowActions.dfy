/** packages/workflow-compiler/src/index.ts: action trees, chaining actions and flattening a tree of them. */
module FlowActions {
  import opened Prelude
  import opened Json

  datatype Action = Action(
    name: string,
    displayName: string,
    actionType: string,
    settings: seq<Field>,
    nextAction: Option<Action>,
    firstLoopAction: Option<Action>,
    children: seq<Action>)

  function Flatten(action: Option<Action>): seq<Action> {
    match action case None => [] case Some(a) => FlattenTree(a)
  }

  /** The action, then what its loop holds, then its children's trees, then what comes next. */
  function FlattenTree(a: Action): seq<Action> {
    [a] + Flatten(a.firstLoopAction) + FlattenAll(a.children) + Flatten(a.nextAction)
  }

  function FlattenAll(actions: seq<Action>): seq<Action> {
    if actions == [] then [] else FlattenTree(actions[0]) + FlattenAll(actions[1..])
  }

  /** Every action linked to the chain of the actions behind it. */
  function Chain(actions: seq<Action>): Option<Action> {
    if actions == [] then None
    else
      var rest := Chain(actions[1..]);
      Some(if rest.Some? then actions[0].(nextAction := rest) else actions[0])
  }

  method ChainActions(actions: seq<Action>) returns (nextAction: Option<Action>)
    ensures nextAction == Chain(actions)
  {
    nextAction := None;
    var i := |actions|;
    while i > 0
      invariant 0 <= i <= |actions|
      invariant nextAction == Chain(actions[i..])
    {
      i := i - 1;
      assert actions[i..][1..] == actions[i + 1..];
      nextAction := Some(if nextAction.Some? then actions[i].(nextAction := nextAction) else actions[i]);
    }
    assert actions[0..] == actions;
  }

  // ----- The order of flattening: the links that lead to an action -----

  datatype Link = FirstLoop | Child(index: nat) | Next

  function Along(a: Action, link: Link): Option<Action> {
    match link
    case FirstLoop => a.firstLoopAction
    case Child(i) => if i < |a.children| then Some(a.children[i]) else None
    case Next => a.nextAction
  }

  function Follow(a: Action, path: seq<Link>): Option<Action>
    decreases |path|
  {
    if path == [] then Some(a)
    else match Along(a, path[0]) case None => None case Some(b) => Follow(b, path[1..])
  }

  predicate LinkBefore(x: Link, y: Link) {
    match (x, y)
    case (FirstLoop, _) => !y.FirstLoop?
    case (Child(i), Child(j)) => i < j
    case (Child(_), Next) => true
    case _ => false
  }

  /** Lexicographic order of paths: a path comes before those it leads into. */
  predicate PathBefore(p: seq<Link>, q: seq<Link>) {
    q != [] && (p == [] || LinkBefore(p[0], q[0]) || (p[0] == q[0] && PathBefore(p[1..], q[1..])))
  }

  ghost predicate Ordered(paths: seq<seq<Link>>) {
    forall i, j :: 0 <= i < j < |paths| ==> PathBefore(paths[i], paths[j])
  }

  function Behind(link: Link, paths: seq<seq<Link>>): (r: seq<seq<Link>>)
    ensures |r| == |paths|
    ensures forall i :: 0 <= i < |paths| ==> r[i] == [link] + paths[i]
  {
    seq(|paths|, i requires 0 <= i < |paths| => [link] + paths[i])
  }

  function Paths(action: Option<Action>): seq<seq<Link>> {
    match action case None => [] case Some(a) => TreePaths(a)
  }

  /** The paths of a tree in flattening order. */
  function TreePaths(a: Action): seq<seq<Link>> {
    [[]] + Behind(FirstLoop, Paths(a.firstLoopAction)) + ChildPaths(a.children, 0) + Behind(Next, Paths(a.nextAction))
  }

  function ChildPaths(actions: seq<Action>, k: nat): seq<seq<Link>> {
    if actions == [] then []
    else Behind(Child(k), TreePaths(actions[0])) + ChildPaths(actions[1..], k + 1)
  }

  /** `found[i]` is where `paths[i]` leads from `a`. */
  ghost predicate Leads(a: Action, paths: seq<seq<Link>>, found: seq<Action>) {
    |paths| == |found| && forall i :: 0 <= i < |paths| ==> Follow(a, paths[i]) == Some(found[i])
  }

  lemma LeadsBehind(a: Action, link: Link, paths: seq<seq<Link>>, found: seq<Action>)
    requires Along(a, link).Some? && Leads(Along(a, link).value, paths, found)
    ensures Leads(a, Behind(link, paths), found)
  {
    forall i | 0 <= i < |paths|
      ensures Follow(a, Behind(link, paths)[i]) == Some(found[i])
    {
      assert ([link] + paths[i])[1..] == paths[i];
    }
  }

  lemma LeadsConcat(a: Action, p: seq<seq<Link>>, f: seq<Action>, q: seq<seq<Link>>, g: seq<Action>)
    requires Leads(a, p, f) && Leads(a, q, g)
    ensures Leads(a, p + q, f + g)
  {
  }

  lemma {:induction false} PathsLead(a: Action)
    ensures Leads(a, TreePaths(a), FlattenTree(a))
  {
    if a.firstLoopAction.Some? {
      PathsLead(a.firstLoopAction.value);
      LeadsBehind(a, FirstLoop, Paths(a.firstLoopAction), Flatten(a.firstLoopAction));
    }
    ChildPathsLead(a, a.children, 0);
    if a.nextAction.Some? {
      PathsLead(a.nextAction.value);
      LeadsBehind(a, Next, Paths(a.nextAction), Flatten(a.nextAction));
    }
    var first, loop := Behind(FirstLoop, Paths(a.firstLoopAction)), Flatten(a.firstLoopAction);
    var below, kids := ChildPaths(a.children, 0), FlattenAll(a.children);
    LeadsConcat(a, [[]], [a], first, loop);
    LeadsConcat(a, [[]] + first, [a] + loop, below, kids);
    LeadsConcat(a, [[]] + first + below, [a] + loop + kids, Behind(Next, Paths(a.nextAction)), Flatten(a.nextAction));
  }

  lemma {:induction false} ChildPathsLead(a: Action, actions: seq<Action>, k: nat)
    requires k + |actions| == |a.children| && actions == a.children[k..]
    ensures Leads(a, ChildPaths(actions, k), FlattenAll(actions))
    decreases actions
  {
    if actions != [] {
      PathsLead(actions[0]);
      LeadsBehind(a, Child(k), TreePaths(actions[0]), FlattenTree(actions[0]));
      ChildPathsLead(a, actions[1..], k + 1);
      LeadsConcat(a, Behind(Child(k), TreePaths(actions[0])), FlattenTree(actions[0]),
                  ChildPaths(actions[1..], k + 1), FlattenAll(actions[1..]));
    }
  }

  // ----- Every path is listed -----

  lemma {:induction false} PathListed(a: Action, path: seq<Link>)
    requires Follow(a, path).Some?
    ensures path in TreePaths(a)
    decreases |path|
  {
    if path == [] {
      assert TreePaths(a)[0] == [];
    } else {
      var b := Along(a, path[0]).value;
      PathListed(b, path[1..]);
      var i :| 0 <= i < |TreePaths(b)| && TreePaths(b)[i] == path[1..];
      assert path == [path[0]] + path[1..];
      assert Behind(path[0], TreePaths(b))[i] == path;
      if path[0].Child? {
        ChildPathListed(a.children, 0, path[0].index, path);
      }
    }
  }

  lemma {:induction false} ChildPathListed(actions: seq<Action>, k: nat, j: nat, path: seq<Link>)
    requires j < |actions| && path in Behind(Child(k + j), TreePaths(actions[j]))
    ensures path in ChildPaths(actions, k)
    decreases j
  {
    if j > 0 {
      ChildPathListed(actions[1..], k + 1, j - 1, path);
    }
  }

  // ----- The paths are in order -----

  lemma OrderedConcat(a: seq<seq<Link>>, b: seq<seq<Link>>)
    requires Ordered(a) && Ordered(b)
    requires forall i, j :: 0 <= i < |a| && 0 <= j < |b| ==> PathBefore(a[i], b[j])
    ensures Ordered(a + b)
  {
  }

  lemma OrderedBehind(link: Link, paths: seq<seq<Link>>)
    requires Ordered(paths)
    ensures Ordered(Behind(link, paths))
  {
    forall i, j | 0 <= i < j < |paths|
      ensures PathBefore(Behind(link, paths)[i], Behind(link, paths)[j])
    {
      assert ([link] + paths[i])[1..] == paths[i] && ([link] + paths[j])[1..] == paths[j];
    }
  }

  lemma {:induction false} ChildPathsStart(actions: seq<Action>, k: nat)
    ensures forall p: seq<Link> :: p in ChildPaths(actions, k) ==> p != [] && p[0].Child? && k <= p[0].index
  {
    if actions != [] {
      ChildPathsStart(actions[1..], k + 1);
    }
  }

  lemma {:induction false} ChildPathsOrdered(actions: seq<Action>, k: nat)
    ensures Ordered(ChildPaths(actions, k))
  {
    if actions != [] {
      TreePathsOrdered(actions[0]);
      OrderedBehind(Child(k), TreePaths(actions[0]));
      ChildPathsOrdered(actions[1..], k + 1);
      ChildPathsStart(actions[1..], k + 1);
      var rest := ChildPaths(actions[1..], k + 1);
      assert forall j :: 0 <= j < |rest| ==> rest[j] in rest;
      OrderedConcat(Behind(Child(k), TreePaths(actions[0])), rest);
    }
  }

  lemma {:induction false} PathsOrdered(action: Option<Action>)
    ensures Ordered(Paths(action))
  {
    if action.Some? {
      TreePathsOrdered(action.value);
    }
  }

  lemma {:induction false} TreePathsOrdered(a: Action)
    ensures Ordered(TreePaths(a))
  {
    PathsOrdered(a.firstLoopAction);
    PathsOrdered(a.nextAction);
    ChildPathsOrdered(a.children, 0);
    ChildPathsStart(a.children, 0);
    var first := Behind(FirstLoop, Paths(a.firstLoopAction));
    var children := ChildPaths(a.children, 0);
    var next := Behind(Next, Paths(a.nextAction));
    OrderedBehind(FirstLoop, Paths(a.firstLoopAction));
    OrderedBehind(Next, Paths(a.nextAction));
    OrderedConcat([[]], first);
    assert forall j :: 0 <= j < |children| ==> children[j] in children;
    OrderedConcat([[]] + first, children);
    OrderedConcat([[]] + first + children, next);
  }

  /**
   * Flattening lists one action for every path of links that exists in the tree, and nothing else,
   * in the lexicographic order of the paths.
   */
  lemma FlattenExact(a: Action)
    ensures |FlattenTree(a)| == |TreePaths(a)|
    ensures forall i :: 0 <= i < |TreePaths(a)| ==> Follow(a, TreePaths(a)[i]) == Some(FlattenTree(a)[i])
    ensures forall path :: Follow(a, path).Some? <==> path in TreePaths(a)
    ensures Ordered(TreePaths(a))
  {
    PathsLead(a);
    TreePathsOrdered(a);
    forall path
      ensures Follow(a, path).Some? <==> path in TreePaths(a)
    {
      if Follow(a, path).Some? {
        PathListed(a, path);
      }
    }
  }

  // ----- Chaining then flattening -----

  /** An action without links, as the compiler makes them. */
  predicate Bare(a: Action) {
    a.nextAction == None && a.firstLoopAction == None && a.children == []
  }

  function Unlinked(a: Action): Action {
    a.(nextAction := None)
  }

  /** Flattening a chain gives back the chained actions in order, each but for its new link. */
  lemma {:induction false} FlattenChain(actions: seq<Action>)
    requires forall i :: 0 <= i < |actions| ==> Bare(actions[i])
    ensures |Flatten(Chain(actions))| == |actions|
    ensures forall i :: 0 <= i < |actions| ==> Unlinked(Flatten(Chain(actions))[i]) == actions[i]
  {
    if actions != [] {
      var rest := actions[1..];
      FlattenChain(rest);
      var head := Chain(actions).value;
      assert Bare(actions[0]);
      assert FlattenAll(head.children) == [] && Flatten(head.firstLoopAction) == [];
      assert FlattenTree(head) == [head] + Flatten(Chain(rest));
    }
  }
}
