/** A flow: its states, transitions and editor layout, as the JSON graph holds them. */
module FlowModel {
  import opened Json
  import opened Wrappers

  datatype Kind = Normal | Vote

  datatype Branch = Fail | Pass

  /** `extras` holds the label, the color and the other fields that no rule reads. */
  datatype State = State(key: string, isInitial: bool, kind: Kind, config: seq<Entry>, extras: map<string, Json>)

  datatype Transition = Transition(
    source: string,
    target: string,
    automatic: bool,
    branch: Option<Branch>,
    guard: Json,
    actions: seq<Json>,
    extras: map<string, Json>)

  /** An editor box over states and further boxes; a missing list reads as empty. */
  datatype Group = Group(
    id: string,
    stateKeys: Option<seq<string>>,
    groupIds: Option<seq<string>>,
    extras: map<string, Json>)
  {
    function Members(): seq<string> {
      stateKeys.GetOr([])
    }

    function Children(): seq<string> {
      groupIds.GetOr([])
    }
  }

  datatype Layout = Layout(
    positions: Option<map<string, Json>>,
    groups: Option<seq<Group>>,
    extras: map<string, Json>)

  datatype Flow = Flow(states: seq<State>, transitions: Option<seq<Transition>>, layout: Option<Layout>)
  {
    function Transitions(): seq<Transition> {
      transitions.GetOr([])
    }

    function LayoutOrEmpty(): Layout {
      layout.GetOr(Layout(None, None, map[]))
    }

    function Groups(): seq<Group> {
      LayoutOrEmpty().groups.GetOr([])
    }

    function Positions(): map<string, Json> {
      LayoutOrEmpty().positions.GetOr(map[])
    }
  }

  function Keys(states: seq<State>): set<string> {
    set s | s in states :: s.key
  }

  ghost predicate DistinctKeys(states: seq<State>) {
    forall i, j :: 0 <= i < j < |states| ==> states[i].key != states[j].key
  }

  lemma KeysAreStateKeys(states: seq<State>, i: nat)
    requires i < |states|
    ensures states[i].key in Keys(states)
  {
    assert states[i] in states;
  }
}
