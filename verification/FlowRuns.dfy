/** Runs of the flow engine: how long automatic transitions can carry an application. */
module FlowRuns {
  import opened Wrappers
  import opened FlowModel
  import opened FlowValidator
  import opened FlowRules
  import opened Walks
  import opened FlowSearch
  import opened Seqs
  import Guards
  import GuardMeaning

  /** What the engine sees when it tries to advance: the guard context and the states it may enter. */
  datatype Tick = Tick(ctx: Guards.Context, enterable: set<string>)

  /** The target of the first automatic transition that fires; a guard that raises ends the attempt. */
  function FirstFiring(h: Guards.Host, ts: seq<Transition>, state: string, tick: Tick): Option<string> {
    if ts == [] then None
    else if ts[0].source == state && ts[0].automatic then
      var verdict := Guards.EvalGuard(h, ts[0].guard, tick.ctx);
      if verdict.Err? then None
      else if verdict.value && ts[0].target in tick.enterable then Some(ts[0].target)
      else FirstFiring(h, ts[1..], state, tick)
    else FirstFiring(h, ts[1..], state, tick)
  }

  /** The transition is an automatic exit of the state, its guard is true and its target may be entered. */
  ghost predicate Fires(h: Guards.Host, t: Transition, state: string, tick: Tick) {
    && t.source == state && t.automatic
    && Guards.EvalGuard(h, t.guard, tick.ctx) == Ok(true) && t.target in tick.enterable
  }

  /** The transition is no such exit, and looking at it raised nothing. */
  ghost predicate IsPassedOver(h: Guards.Host, t: Transition, state: string, tick: Tick) {
    || t.source != state || !t.automatic
    || Guards.EvalGuard(h, t.guard, tick.ctx) == Ok(false)
    || (Guards.EvalGuard(h, t.guard, tick.ctx) == Ok(true) && t.target !in tick.enterable)
  }

  ghost predicate IsFirstToFire(h: Guards.Host, ts: seq<Transition>, state: string, tick: Tick, i: int) {
    0 <= i < |ts| && Fires(h, ts[i], state, tick) && forall j :: 0 <= j < i ==> IsPassedOver(h, ts[j], state, tick)
  }

  /** The engine takes the first transition that fires, and none behind a guard that raises. */
  lemma {:induction false} FirstFiringIsFirst(h: Guards.Host, ts: seq<Transition>, state: string, tick: Tick)
    ensures forall i :: IsFirstToFire(h, ts, state, tick, i) ==> FirstFiring(h, ts, state, tick) == Some(ts[i].target)
    ensures FirstFiring(h, ts, state, tick).Some? ==> exists i :: IsFirstToFire(h, ts, state, tick, i)
  {
    if ts != [] {
      var rest := ts[1..];
      FirstFiringIsFirst(h, rest, state, tick);
      forall i | IsFirstToFire(h, ts, state, tick, i) && i > 0 ensures IsFirstToFire(h, rest, state, tick, i - 1) {
        assert forall j :: 0 <= j < |rest| ==> rest[j] == ts[j + 1];
      }
      if Fires(h, ts[0], state, tick) {
        assert IsFirstToFire(h, ts, state, tick, 0);
      } else if IsPassedOver(h, ts[0], state, tick) {
        forall i | IsFirstToFire(h, rest, state, tick, i) ensures IsFirstToFire(h, ts, state, tick, i + 1) {
          assert forall j :: 0 < j < |ts| ==> ts[j] == rest[j - 1];
        }
      }
    }
  }

  /** `auto_advance`: a vote state is left by its vote only. */
  function Advance(h: Guards.Host, g: Flow, state: string, tick: Tick): Option<string> {
    if IsVoteKey(g.states, state) then None else FirstFiring(h, g.Transitions(), state, tick)
  }

  /** A hop follows an automatic exit whose guard holds, into a state that may be entered, and never leaves a vote. */
  lemma {:induction false} HopsAreJustified(h: Guards.Host, g: Flow, state: string, tick: Tick)
    ensures Advance(h, g, state, tick).Some? ==>
              && !IsVote(g.states, state)
              && exists t :: && t in g.Transitions() && t.source == state && t.automatic
                             && t.target == Advance(h, g, state, tick).value && t.target in tick.enterable
                             && GuardMeaning.Holds(h, t.guard, tick.ctx)
  {
    if Advance(h, g, state, tick).Some? {
      VoteKeysDecided(g.states, state);
      FirstFiringIsFirst(h, g.Transitions(), state, tick);
      var i :| IsFirstToFire(h, g.Transitions(), state, tick, i);
      GuardMeaning.EvalMeansHolds(h, g.Transitions()[i].guard, tick.ctx);
      assert g.Transitions()[i] in g.Transitions();
    }
  }

  /** The states an application passes while nobody but the engine moves it. */
  function Trail(h: Guards.Host, g: Flow, state: string, ticks: seq<Tick>): (trail: seq<string>)
    ensures |trail| > 0 && trail[0] == state
    decreases |ticks|
  {
    if ticks == [] then [state]
    else match Advance(h, g, state, ticks[0])
      case None => Trail(h, g, state, ticks[1..])
      case Some(next) => [state] + Trail(h, g, next, ticks[1..])
  }

  lemma {:induction false} FiringFollowsAnEdge(h: Guards.Host, ts: seq<Transition>, state: string, tick: Tick)
    ensures match FirstFiring(h, ts, state, tick)
            case Some(next) => next in Targets(ts, state, true)
            case None => true
  {
    if ts != [] {
      FiringFollowsAnEdge(h, ts[1..], state, tick);
    }
  }

  lemma {:induction false} TrailIsAutomaticWalk(h: Guards.Host, g: Flow, state: string, ticks: seq<Tick>)
    requires state in Keys(g.states) && Total(AutomaticEdges(g))
    ensures IsWalk(AutomaticEdges(g), Trail(h, g, state, ticks))
    decreases |ticks|
  {
    if ticks != [] {
      FiringFollowsAnEdge(h, g.Transitions(), state, ticks[0]);
      match Advance(h, g, state, ticks[0])
      case None => TrailIsAutomaticWalk(h, g, state, ticks[1..]);
      case Some(next) =>
        assert Edge(AutomaticEdges(g), state, next);
        assert next in AutomaticEdges(g)[state] && next in AutomaticEdges(g).Keys;
        TrailIsAutomaticWalk(h, g, next, ticks[1..]);
    }
  }

  lemma {:induction false} FewerKeysThanStates(states: seq<State>)
    ensures |Keys(states)| <= |states|
  {
    if states != [] {
      FewerKeysThanStates(states[1..]);
      assert states == [states[0]] + states[1..];
      assert Keys(states) == {states[0].key} + Keys(states[1..]);
    }
  }

  /**
   In an accepted flow the engine alone makes fewer hops than there are states, from every state
   and over every sequence of attempts, whatever the guards read in each of them.
   */
  lemma {:induction false} AutomaticAdvancingStops(h: Guards.Host, g: Flow, order: seq<string>, state: string, ticks: seq<Tick>)
    requires Elements(order) == Keys(g.states) && state in Keys(g.states)
    ensures ValidateFlow(g, order).Ok? ==>
              var trail := Trail(h, g, state, ticks);
              && |trail| - 1 < |g.states|
              && forall i, j :: 0 <= i < j < |trail| ==> trail[i] != trail[j]
  {
    ValidatorIsExact(g, order);
    if ValidateFlow(g, order).Ok? {
      TrailIsAutomaticWalk(h, g, state, ticks);
      AcyclicWalkIsSimple(AutomaticEdges(g), Trail(h, g, state, ticks));
      AcyclicWalkIsShort(AutomaticEdges(g), Trail(h, g, state, ticks));
      assert AutomaticEdges(g).Keys == Keys(g.states);
      FewerKeysThanStates(g.states);
    }
  }
}
