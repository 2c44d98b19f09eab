/** The read-modify-write operations on a flow graph: each builds a new graph or raises. */
module GraphOps {
  import opened Json
  import opened Wrappers
  import opened FlowModel
  import opened Seqs
  import opened Walks

  datatype EditError =
    | UnknownState | KeyExists | UnknownEnd | IndexOutOfRange | UnknownPositions
    | UnknownMembers | ContainsItself | UnknownSubgroups | EmptyGroup | MissingStateKeys
    | NestingCycle | UnknownGroup

  type Edited = Result<Flow, EditError>

  // -- states -----------------------------------------------------------------------------------------

  /** The index of the first state with the key. */
  function StateIndex(states: seq<State>, key: string): (r: Option<nat>)
    ensures r.Some? ==> r.value < |states| && states[r.value].key == key && forall j :: 0 <= j < r.value ==> states[j].key != key
    ensures r.None? <==> forall i :: 0 <= i < |states| ==> states[i].key != key
  {
    if states == [] then None
    else if states[0].key == key then Some(0)
    else match StateIndex(states[1..], key)
      case Some(i) => assert states[1..][i] == states[i + 1]; Some(i + 1)
      case None => assert forall i :: 0 < i < |states| ==> states[i] == states[1..][i - 1]; None
  }

  function Place(x: int, y: int): Json {
    Obj([Entry("x", Number(x as real)), Entry("y", Number(y as real))])
  }

  function AddState(g: Flow, state: State, x: Option<int>, y: Option<int>): Edited {
    if StateIndex(g.states, state.key).Some? then Err(KeyExists)
    else
      var placed := if x.Some? && y.Some?
        then Some(g.LayoutOrEmpty().(positions := Some(g.Positions()[state.key := Place(x.value, y.value)])))
        else g.layout;
      Ok(g.(states := g.states + [state], layout := placed))
  }

  /** The fields of a state that an update sets; the others stay. */
  datatype StatePatch = StatePatch(
    key: Option<string>,
    isInitial: Option<bool>,
    kind: Option<Kind>,
    config: Option<seq<Entry>>,
    extras: map<string, Json>)

  function Patched(s: State, patch: StatePatch): State {
    State(patch.key.GetOr(s.key), patch.isInitial.GetOr(s.isInitial), patch.kind.GetOr(s.kind),
          patch.config.GetOr(s.config), s.extras + patch.extras)
  }

  function Renamed(k: string, key: string, newKey: string): string {
    if k == key then newKey else k
  }

  function RenamedTransition(t: Transition, key: string, newKey: string): Transition {
    t.(source := Renamed(t.source, key, newKey), target := Renamed(t.target, key, newKey))
  }

  function RenamedGroup(grp: Group, key: string, newKey: string): Group {
    grp.(stateKeys := Some(Map(k => Renamed(k, key, newKey), grp.Members())))
  }

  function RenamedLayout(layout: Layout, key: string, newKey: string): Layout {
    var positions, groups := layout.positions.GetOr(map[]), layout.groups.GetOr([]);
    layout.(
      positions := if key in positions then Some((positions - {key})[newKey := positions[key]]) else layout.positions,
      groups := if groups != [] then Some(Map(grp => RenamedGroup(grp, key, newKey), groups)) else layout.groups)
  }

  /** A new key counts as a rename unless it is empty or the old one. */
  predicate IsRename(key: string, patch: StatePatch) {
    patch.key.Some? && patch.key.value != "" && patch.key.value != key
  }

  function UpdateState(g: Flow, key: string, patch: StatePatch): Edited {
    match StateIndex(g.states, key)
    case None => Err(UnknownState)
    case Some(i) =>
      if IsRename(key, patch) && exists j :: 0 <= j < |g.states| && j != i && g.states[j].key == patch.key.value
      then Err(KeyExists)
      else
        var states := g.states[i := Patched(g.states[i], patch)];
        if IsRename(key, patch) then
          var newKey := patch.key.value;
          Ok(Flow(states,
                  Some(Map(t => RenamedTransition(t, key, newKey), g.Transitions())),
                  Some(RenamedLayout(g.LayoutOrEmpty(), key, newKey))))
        else Ok(g.(states := states))
  }

  function WithoutMember(grp: Group, key: string): Group {
    grp.(stateKeys := Some(Filter(k => k != key, grp.Members())))
  }

  predicate HasContent(grp: Group) {
    grp.Members() != [] || grp.Children() != []
  }

  function RemoveState(g: Flow, key: string): Edited {
    if StateIndex(g.states, key).None? then Err(UnknownState)
    else
      var layout := g.LayoutOrEmpty();
      var groups := Filter(HasContent, Map(grp => WithoutMember(grp, key), g.Groups()));
      var positions := if g.Positions() != map[] then Some(g.Positions() - {key}) else layout.positions;
      Ok(Flow(Filter((s: State) => s.key != key, g.states),
              Some(Filter((t: Transition) => t.source != key && t.target != key, g.Transitions())),
              Some(layout.(positions := positions, groups := if groups != [] then Some(groups) else None))))
  }

  function MergePositions(g: Flow, positions: map<string, Json>): Edited {
    if positions.Keys - Keys(g.states) != {} then Err(UnknownPositions)
    else Ok(g.(layout := Some(g.LayoutOrEmpty().(positions := Some(g.Positions() + positions)))))
  }

  // -- transitions ----------------------------------------------------------------------------------------

  function AddTransition(g: Flow, t: Transition): Edited {
    if t.source !in Keys(g.states) || t.target !in Keys(g.states) then Err(UnknownEnd)
    else Ok(g.(transitions := Some(g.Transitions() + [t])))
  }

  /** The fields of a transition that an update sets; an explicit null sets the default. */
  datatype TransitionPatch = TransitionPatch(
    source: Option<string>,
    target: Option<string>,
    automatic: Option<bool>,
    branch: Option<Option<Branch>>,
    guard: Option<Json>,
    actions: Option<seq<Json>>,
    extras: map<string, Json>)

  function PatchedTransition(t: Transition, patch: TransitionPatch): Transition {
    var merged := t.extras + patch.extras;
    var nulled := set k | k in patch.extras && patch.extras[k] == Null;
    Transition(patch.source.GetOr(t.source), patch.target.GetOr(t.target), patch.automatic.GetOr(t.automatic),
               patch.branch.GetOr(t.branch), patch.guard.GetOr(t.guard), patch.actions.GetOr(t.actions),
               merged - nulled)
  }

  function UpdateTransition(g: Flow, index: int, patch: TransitionPatch): Edited {
    var ts := g.Transitions();
    if !(0 <= index < |ts|) then Err(IndexOutOfRange)
    else Ok(g.(transitions := Some(ts[index := PatchedTransition(ts[index], patch)])))
  }

  function RemoveTransition(g: Flow, index: int): Edited {
    var ts := g.Transitions();
    if !(0 <= index < |ts|) then Err(IndexOutOfRange)
    else Ok(g.(transitions := Some(ts[..index] + ts[index + 1..])))
  }

  // -- groups ---------------------------------------------------------------------------------------------------

  /** The children of each group id; a later group with the same id wins. */
  function Nesting(groups: seq<Group>): Graph {
    if groups == [] then map[] else map[groups[0].id := groups[0].Children()] + Nesting(groups[1..])
  }

  function Ids(groups: seq<Group>): seq<string> {
    Map((grp: Group) => grp.id, groups)
  }

  /** Walk the groups below `gid` depth first; the error names a group on its own path. */
  function Visit(gid: string, children: Graph, path: set<string>, done: set<string>): Result<set<string>, string>
    decreases children.Keys - path, 1
  {
    if gid in path then Err(gid)
    else if gid in done then Ok(done + {gid})
    else
      assert gid in children ==> gid in children.Keys - path && gid !in children.Keys - (path + {gid});
      assert gid !in children ==> children.Keys - (path + {gid}) == children.Keys - path;
      var below :- VisitAll(Successors(children, gid), children, path + {gid}, done);
      Ok(below + {gid})
  }

  function VisitAll(gids: seq<string>, children: Graph, path: set<string>, done: set<string>): Result<set<string>, string>
    decreases children.Keys - path, 2 * |gids|
  {
    if gids == [] then Ok(done) else
      var next :- Visit(gids[0], children, path, done);
      VisitAll(gids[1..], children, path, next)
  }

  predicate AssertAcyclic(groups: seq<Group>) {
    VisitAll(Ids(groups), Nesting(groups), {}, {}).Ok?
  }

  /** A group without the states and sub-groups that join another group. */
  function LeftOut(grp: Group, members: seq<string>, children: seq<string>): Group {
    grp.(
      stateKeys := Some(Filter(k => k !in members, grp.Members())),
      groupIds := if children != [] then Some(Filter(c => c !in children, grp.Children())) else grp.groupIds)
  }

  /** What an upsert of `group` leaves of the others. */
  function LeavesOut(group: Group): Group -> Group {
    (grp: Group) => if grp.id == group.id then grp else LeftOut(grp, group.Members(), group.Children())
  }

  function StaysBeside(group: Group): Group -> bool {
    (grp: Group) => grp.id == group.id || HasContent(grp)
  }

  function StrippedFor(group: Group, groups: seq<Group>): seq<Group> {
    Filter(StaysBeside(group), Map(LeavesOut(group), groups))
  }

  function GroupIndex(groups: seq<Group>, id: string): (r: Option<nat>)
    ensures r.Some? ==> r.value < |groups| && groups[r.value].id == id
    ensures r.None? <==> forall i :: 0 <= i < |groups| ==> groups[i].id != id
  {
    if groups == [] then None
    else if groups[0].id == id then Some(0)
    else match GroupIndex(groups[1..], id)
      case Some(i) => assert groups[1..][i] == groups[i + 1]; Some(i + 1)
      case None => assert forall i :: 0 < i < |groups| ==> groups[i] == groups[1..][i - 1]; None
  }

  function Upserted(group: Group, groups: seq<Group>): seq<Group> {
    var kept := StrippedFor(group, groups);
    match GroupIndex(kept, group.id)
    case None => kept + [group]
    case Some(i) => kept[i := group]
  }

  function UpsertGroup(g: Flow, group: Group): Edited {
    if exists k :: k in group.Members() && k !in Keys(g.states) then Err(UnknownMembers)
    else if group.id in group.Children() then Err(ContainsItself)
    else if exists c :: c in group.Children() && c !in Ids(g.Groups()) + [group.id] then Err(UnknownSubgroups)
    else if group.Members() == [] && group.Children() == [] then Err(EmptyGroup)
    else if group.stateKeys.None? then Err(MissingStateKeys)
    else
      var result := Upserted(group, g.Groups());
      if !AssertAcyclic(result) then Err(NestingCycle)
      else Ok(g.(layout := Some(g.LayoutOrEmpty().(groups := Some(result)))))
  }

  /** A group without one sub-group, and without an empty list of sub-groups. */
  function WithoutChild(grp: Group, id: string): Group {
    var ids := Filter(c => c != id, grp.Children());
    grp.(groupIds := if ids != [] then Some(ids) else None)
  }

  function DeleteGroup(g: Flow, id: string): Edited {
    if GroupIndex(g.Groups(), id).None? then Err(UnknownGroup)
    else
      var others := Filter((grp: Group) => grp.id != id, g.Groups());
      var remaining := Map(grp => WithoutChild(grp, id), others);
      Ok(g.(layout := Some(g.LayoutOrEmpty().(groups := if remaining != [] then Some(remaining) else None))))
  }

  // -- sequences of edits -----------------------------------------------------------------------------------------

  datatype Edit =
    | DoAddState(state: State, x: Option<int>, y: Option<int>)
    | DoUpdateState(key: string, patch: StatePatch)
    | DoRemoveState(key: string)
    | DoAddTransition(transition: Transition)
    | DoUpdateTransition(index: int, change: TransitionPatch)
    | DoRemoveTransition(index: int)
    | DoMergePositions(positions: map<string, Json>)
    | DoUpsertGroup(group: Group)
    | DoDeleteGroup(id: string)

  function ApplyEdit(g: Flow, e: Edit): Edited {
    match e
    case DoAddState(state, x, y) => AddState(g, state, x, y)
    case DoUpdateState(key, patch) => UpdateState(g, key, patch)
    case DoRemoveState(key) => RemoveState(g, key)
    case DoAddTransition(t) => AddTransition(g, t)
    case DoUpdateTransition(index, change) => UpdateTransition(g, index, change)
    case DoRemoveTransition(index) => RemoveTransition(g, index)
    case DoMergePositions(positions) => MergePositions(g, positions)
    case DoUpsertGroup(group) => UpsertGroup(g, group)
    case DoDeleteGroup(id) => DeleteGroup(g, id)
  }

  /** An edit that raises leaves the stored graph as it is. */
  function AfterEdit(g: Flow, e: Edit): Flow {
    match ApplyEdit(g, e)
    case Ok(next) => next
    case Err(_) => g
  }

  function AfterEdits(g: Flow, edits: seq<Edit>): Flow
    decreases |edits|
  {
    if edits == [] then g else AfterEdits(AfterEdit(g, edits[0]), edits[1..])
  }
}
