/** One cron tick of the vote auto-close without contention, and how a backlog drains over the ticks. */
module VoteTicks {
  import opened Wrappers
  import opened VoteClosing
  import opened Seqs
  import OrderedSelect

  function ClosesAt(votes: map<VoteId, Vote>, id: VoteId): int {
    if id in votes then votes[id].closesAt.GetOr(0) else 0
  }

  function ByClosing(votes: map<VoteId, Vote>): VoteId -> int {
    id => ClosesAt(votes, id)
  }

  /** The votes one tick takes: due, the oldest first, at most the scan limit. */
  ghost predicate IsTick(votes: map<VoteId, Vote>, now: int, taken: set<VoteId>) {
    && taken <= Due(votes, now)
    && |taken| <= SCAN_LIMIT
    && (taken == Due(votes, now) || |taken| == SCAN_LIMIT)
    && forall a, b :: a in taken && b in Due(votes, now) - taken ==> ClosesAt(votes, a) <= ClosesAt(votes, b)
  }

  function CloseAll(votes: map<VoteId, Vote>, ids: set<VoteId>): map<VoteId, Vote> {
    map id | id in votes :: if id in ids then votes[id].(status := Closed) else votes[id]
  }

  lemma SelectionIsTick(votes: map<VoteId, Vote>, now: int, ids: seq<VoteId>)
    requires OrderedSelect.IsSelection(Due(votes, now), SCAN_LIMIT, ByClosing(votes), ids)
    ensures IsTick(votes, now, Elements(ids)) && |Elements(ids)| == |ids|
  {
    OrderedSelect.DistinctCount(ids);
    assert forall id :: ByClosing(votes)(id) == ClosesAt(votes, id);
  }

  /** Closing one more vote of the list; it is still due, because the list names it once. */
  lemma CloseNext(votes: map<VoteId, Vote>, now: int, ids: seq<VoteId>, i: nat)
    requires i < |ids| && OrderedSelect.IsSelection(Due(votes, now), SCAN_LIMIT, ByClosing(votes), ids)
    ensures var before := CloseAll(votes, Elements(ids[..i]));
            && IsDue(before, now, ids[i])
            && CloseAll(before, {ids[i]}) == CloseAll(votes, Elements(ids[..i + 1]))
  {
    assert ids[i] in Elements(ids);
    assert ids[i] in Due(votes, now);
    assert ids[..i + 1] == ids[..i] + [ids[i]];
    assert Elements(ids[..i + 1]) == Elements(ids[..i]) + {ids[i]};
    assert ids[i] !in ids[..i];
  }

  class VoteCloser {
    var votes: map<VoteId, Vote>

    constructor (votes: map<VoteId, Vote>)
      ensures this.votes == votes
    {
      this.votes := votes;
    }

    /** The ids of due votes, oldest first, up to the limit. */
    method DueOpenVoteIds(now: int, limit: nat) returns (ids: seq<VoteId>)
      ensures OrderedSelect.IsSelection(Due(votes, now), limit, ByClosing(votes), ids)
    {
      var due := set id | id in votes && IsDue(votes, now, id);
      assert due == Due(votes, now);
      ids := OrderedSelect.SelectEarliest(due, limit, ByClosing(votes));
    }

    /** Lock, check again and close one vote; a vote that is no longer due stays as it is. */
    method CloseOne(id: VoteId, now: int) returns (closed: bool)
      modifies this
      ensures closed == IsDue(old(votes), now, id)
      ensures votes == if closed then CloseAll(old(votes), {id}) else old(votes)
    {
      closed := IsDue(votes, now, id);
      if closed {
        votes := votes[id := votes[id].(status := Closed)];
      }
    }

    /**
     One tick: exactly the oldest due votes close, and the result counts them. The tick is a run of the
     step system in which one worker meets no lock.
     */
    method ProcessVotes(now: int) returns (count: nat, ghost ids: seq<VoteId>)
      modifies this
      ensures IsTick(old(votes), now, Elements(ids))
      ensures votes == CloseAll(old(votes), Elements(ids)) && count == |Elements(ids)|
      ensures forall w :: var from := System(old(votes), map[], []);
                          IsRun(from, TickSteps(w, now, ids)) && AfterRun(from, TickSteps(w, now, ids)).votes == votes
    {
      var todo := DueOpenVoteIds(now, SCAN_LIMIT);
      ids := todo;
      SelectionIsTick(votes, now, ids);
      count := 0;
      assert CloseAll(votes, Elements(ids[..0])) == votes;
      for i := 0 to |todo|
        invariant votes == CloseAll(old(votes), Elements(ids[..i])) && count == i
      {
        CloseNext(old(votes), now, ids, i);
        var closed := CloseOne(todo[i], now);
        count := count + if closed then 1 else 0;
      }
      assert ids[..|ids|] == ids;
      forall w ensures var from := System(old(votes), map[], []);
                       IsRun(from, TickSteps(w, now, ids)) && AfterRun(from, TickSteps(w, now, ids)).votes == votes {
        TickIsRun(System(old(votes), map[], []), w, now, ids);
      }
    }
  }

  // -- the tick as steps --------------------------------------------------------------------------------

  /** Lock and close the votes of the list, one by one. */
  function CloseSteps(w: Worker, ids: seq<VoteId>): seq<Step> {
    if ids == [] then [] else [TryLock(w), CommitClose(w)] + CloseSteps(w, ids[1..])
  }

  function TickSteps(w: Worker, now: int, ids: seq<VoteId>): seq<Step> {
    [Scan(w, now, ids)] + CloseSteps(w, ids)
  }

  lemma CloseFirst(votes: map<VoteId, Vote>, now: int, ids: seq<VoteId>)
    requires ids != [] && (forall i, j :: 0 <= i < j < |ids| ==> ids[i] != ids[j])
    requires forall i :: 0 <= i < |ids| ==> IsDue(votes, now, ids[i])
    ensures forall i :: 0 <= i < |ids[1..]| ==> IsDue(CloseVote(votes, ids[0]), now, ids[1..][i])
    ensures CloseAll(CloseVote(votes, ids[0]), Elements(ids[1..])) == CloseAll(votes, Elements(ids))
  {
    assert ids == [ids[0]] + ids[1..];
    assert Elements(ids) == {ids[0]} + Elements(ids[1..]);
  }

  predicate NobodyHolds(s: System) {
    forall u :: u in s.tasks ==> s.tasks[u].held.None?
  }

  /** A worker that meets no lock and no failure closes its whole list in order. */
  lemma {:induction false} CloseStepsRun(s: System, w: Worker, now: int, ids: seq<VoteId>)
    requires w in s.tasks && s.tasks[w] == Task(now, ids, None) && NobodyHolds(s)
    requires forall i, j :: 0 <= i < j < |ids| ==> ids[i] != ids[j]
    requires forall i :: 0 <= i < |ids| ==> IsDue(s.votes, now, ids[i])
    ensures IsRun(s, CloseSteps(w, ids))
    ensures var end := AfterRun(s, CloseSteps(w, ids));
            end.votes == CloseAll(s.votes, Elements(ids)) && end.closings == s.closings + ids
    decreases |ids|
  {
    if ids == [] {
      assert CloseAll(s.votes, Elements(ids)) == s.votes;
    } else {
      var locked := Apply(s, TryLock(w));
      var next := Apply(locked, CommitClose(w));
      assert locked == s.(tasks := s.tasks[w := Task(now, ids[1..], Some(ids[0]))]);
      assert next.votes == CloseVote(s.votes, ids[0]) && next.tasks[w] == Task(now, ids[1..], None);
      CloseFirst(s.votes, now, ids);
      CloseStepsRun(next, w, now, ids[1..]);
      assert s.closings + [ids[0]] + ids[1..] == s.closings + ids;
    }
  }

  /** An uncontended tick is a run of the step system, and ends where the tick does. */
  lemma TickIsRun(s: System, w: Worker, now: int, ids: seq<VoteId>)
    requires NobodyHolds(s)
    requires OrderedSelect.IsSelection(Due(s.votes, now), SCAN_LIMIT, ByClosing(s.votes), ids)
    ensures IsRun(s, TickSteps(w, now, ids))
    ensures var end := AfterRun(s, TickSteps(w, now, ids));
            end.votes == CloseAll(s.votes, Elements(ids)) && end.closings == s.closings + ids
  {
    var steps := TickSteps(w, now, ids);
    assert steps[0] == Scan(w, now, ids) && steps[1..] == CloseSteps(w, ids);
    forall i | 0 <= i < |ids| ensures IsDue(s.votes, now, ids[i]) {
      assert ids[i] in Elements(ids);
    }
    var scanned := Apply(s, Scan(w, now, ids));
    CloseStepsRun(scanned, w, now, ids);
  }

  // -- draining ---------------------------------------------------------------------------------------

  lemma DueAfterTick(votes: map<VoteId, Vote>, taken: set<VoteId>, moment: int)
    ensures Due(CloseAll(votes, taken), moment) == Due(votes, moment) - taken
  {
  }

  /**
   A tick at or after a moment takes the votes that were due at that moment before any later one: it
   closes them all, or as many as the limit allows.
   */
  lemma TickDrains(votes: map<VoteId, Vote>, moment: int, now: int, taken: set<VoteId>)
    requires moment <= now && IsTick(votes, now, taken)
    ensures var left := Due(CloseAll(votes, taken), moment);
            |left| == if |Due(votes, moment)| <= SCAN_LIMIT then 0 else |Due(votes, moment)| - SCAN_LIMIT
  {
    var due := Due(votes, moment);
    DueAfterTick(votes, taken, moment);
    if due <= taken {
      SubsetIsSmaller(due, taken);
      assert due - taken == {};
    } else {
      var b :| b in due && b !in taken;
      forall a | a in taken ensures a in due {
        assert b in Due(votes, now) - taken;
      }
      SubsetIsSmaller(taken, due);
      assert |due - taken| == |due| - |taken|;
      assert b in due - taken;
    }
  }

  /** The moments of the ticks and what each takes. */
  datatype Tick = Tick(now: int, taken: set<VoteId>)

  ghost predicate AreTicks(votes: map<VoteId, Vote>, moment: int, ticks: seq<Tick>)
    decreases |ticks|
  {
    ticks != [] ==>
      && moment <= ticks[0].now && IsTick(votes, ticks[0].now, ticks[0].taken)
      && AreTicks(CloseAll(votes, ticks[0].taken), moment, ticks[1..])
  }

  function AfterTicks(votes: map<VoteId, Vote>, ticks: seq<Tick>): map<VoteId, Vote>
    decreases |ticks|
  {
    if ticks == [] then votes else AfterTicks(CloseAll(votes, ticks[0].taken), ticks[1..])
  }

  lemma {:induction false} TicksDrain(votes: map<VoteId, Vote>, moment: int, ticks: seq<Tick>)
    requires AreTicks(votes, moment, ticks)
    ensures var n := |Due(votes, moment)|;
            |Due(AfterTicks(votes, ticks), moment)|
            == if n <= SCAN_LIMIT * |ticks| then 0 else n - SCAN_LIMIT * |ticks|
    decreases |ticks|
  {
    if ticks != [] {
      TickDrains(votes, moment, ticks[0].now, ticks[0].taken);
      TicksDrain(CloseAll(votes, ticks[0].taken), moment, ticks[1..]);
    }
  }

  /**
   The n votes due at a moment are all closed after ceil(n / 200) ticks and not before, even when
   further votes fall due in the meantime.
   */
  lemma BacklogDrainsInCeiling(votes: map<VoteId, Vote>, moment: int, ticks: seq<Tick>)
    requires AreTicks(votes, moment, ticks)
    ensures Due(AfterTicks(votes, ticks), moment) == {} <==>
            |ticks| >= (|Due(votes, moment)| + SCAN_LIMIT - 1) / SCAN_LIMIT
  {
    TicksDrain(votes, moment, ticks);
  }
}
