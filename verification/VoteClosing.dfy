/**
 The auto-close of votes by any number of workers: scan without a lock, lock one vote with a second
 check, close it and commit. Other transactions open, close and reschedule votes in between.
 */
module VoteClosing {
  import opened Wrappers

  type VoteId = string
  type Worker = string

  datatype Status = Open | Closed

  datatype Vote = Vote(status: Status, closesAt: Option<int>)

  /** What a worker is doing: the moment of its tick, the ids it still has to try, the row it holds. */
  datatype Task = Task(now: int, queue: seq<VoteId>, held: Option<VoteId>)

  datatype System = System(votes: map<VoteId, Vote>, tasks: map<Worker, Task>, closings: seq<VoteId>)

  const SCAN_LIMIT: nat := 200

  predicate IsDue(votes: map<VoteId, Vote>, now: int, id: VoteId) {
    id in votes && votes[id].status.Open? && votes[id].closesAt.Some? && votes[id].closesAt.value <= now
  }

  /** Due is an open vote whose end has come, at the very moment of its end too. */
  lemma DueMeans(votes: map<VoteId, Vote>, now: int, id: VoteId)
    ensures IsDue(votes, now, id) <==> id in votes && exists end :: votes[id] == Vote(Open, Some(end)) && end <= now
  {
    if id in votes && votes[id].closesAt.Some? && votes[id].status.Open? {
      assert votes[id] == Vote(Open, Some(votes[id].closesAt.value));
    }
  }

  function Due(votes: map<VoteId, Vote>, now: int): set<VoteId> {
    set id | id in votes && IsDue(votes, now, id)
  }

  /** Some worker holds the row lock of the vote. */
  predicate Locked(s: System, id: VoteId) {
    exists w :: w in s.tasks && s.tasks[w].held == Some(id)
  }

  datatype Step =
    | Scan(w: Worker, now: int, ids: seq<VoteId>)
    | TryLock(w: Worker)
    | CommitClose(w: Worker)
    | Fail(w: Worker)
    | OpenVote(id: VoteId, closesAt: Option<int>)
    | Reschedule(id: VoteId, closesAt: Option<int>)
    | CloseByHand(id: VoteId)

  predicate Holds(s: System, w: Worker) {
    w in s.tasks && s.tasks[w].held.Some?
  }

  /**
   A scan lists due votes. A worker locks the next id of its list. A transaction of someone else can
   change a vote only while no worker holds its row.
   */
  predicate Enabled(s: System, step: Step) {
    match step
    case Scan(w, now, ids) => !Holds(s, w) && forall i :: 0 <= i < |ids| ==> IsDue(s.votes, now, ids[i])
    case TryLock(w) => w in s.tasks && s.tasks[w].held.None? && s.tasks[w].queue != []
    case CommitClose(w) => Holds(s, w)
    case Fail(w) => Holds(s, w)
    case OpenVote(id, _) => id !in s.votes
    case Reschedule(id, _) => id in s.votes && s.votes[id].status.Open? && !Locked(s, id)
    case CloseByHand(id) => id in s.votes && s.votes[id].status.Open? && !Locked(s, id)
  }

  function CloseVote(votes: map<VoteId, Vote>, id: VoteId): map<VoteId, Vote> {
    if id in votes then votes[id := votes[id].(status := Closed)] else votes
  }

  function Release(s: System, w: Worker): System {
    if w in s.tasks then s.(tasks := s.tasks[w := s.tasks[w].(held := None)]) else s
  }

  function Apply(s: System, step: Step): System {
    match step
    case Scan(w, now, ids) => s.(tasks := s.tasks[w := Task(now, ids, None)])
    case TryLock(w) =>
      if w !in s.tasks || s.tasks[w].queue == [] then s else
        var task := s.tasks[w];
        var id := task.queue[0];
        var held := if IsDue(s.votes, task.now, id) && !Locked(s, id) then Some(id) else None;
        s.(tasks := s.tasks[w := Task(task.now, task.queue[1..], held)])
    case CommitClose(w) =>
      if !Holds(s, w) then s else
        var id := s.tasks[w].held.value;
        Release(s.(votes := CloseVote(s.votes, id), closings := s.closings + [id]), w)
    case Fail(w) => Release(s, w)
    case OpenVote(id, closesAt) => s.(votes := s.votes[id := Vote(Open, closesAt)])
    case Reschedule(id, closesAt) =>
      if id in s.votes then s.(votes := s.votes[id := s.votes[id].(closesAt := closesAt)]) else s
    case CloseByHand(id) => s.(votes := CloseVote(s.votes, id), closings := s.closings + [id])
  }

  predicate IsRun(s: System, steps: seq<Step>)
    decreases |steps|
  {
    steps != [] ==> Enabled(s, steps[0]) && IsRun(Apply(s, steps[0]), steps[1..])
  }

  function AfterRun(s: System, steps: seq<Step>): System
    decreases |steps|
  {
    if steps == [] then s else AfterRun(Apply(s, steps[0]), steps[1..])
  }

  /**
   One worker at most holds a vote, a held vote is open and past its end, and no vote is closed twice.
   */
  ghost predicate Safe(s: System) {
    && (forall v, w :: Holds(s, v) && Holds(s, w) && v != w ==> s.tasks[v].held != s.tasks[w].held)
    && (forall w :: Holds(s, w) ==> IsDue(s.votes, s.tasks[w].now, s.tasks[w].held.value))
    && (forall i, j :: 0 <= i < j < |s.closings| ==> s.closings[i] != s.closings[j])
    && (forall i :: 0 <= i < |s.closings| ==> s.closings[i] in s.votes && s.votes[s.closings[i]].status.Closed?)
  }

  lemma NothingIsSafe(votes: map<VoteId, Vote>)
    ensures Safe(System(votes, map[], []))
  {
  }

  lemma LockedByHolder(s: System, w: Worker)
    requires Holds(s, w)
    ensures Locked(s, s.tasks[w].held.value)
  {
  }

  lemma TryLockKeepsSafe(s: System, w: Worker)
    requires Safe(s) && Enabled(s, TryLock(w))
    ensures Safe(Apply(s, TryLock(w)))
  {
    var next := Apply(s, TryLock(w));
    forall u, v | Holds(next, u) && Holds(next, v) && u != v ensures next.tasks[u].held != next.tasks[v].held {
      assert u != w ==> Holds(s, u);
      assert v != w ==> Holds(s, v);
      if u == w {
        LockedByHolder(s, v);
      } else if v == w {
        LockedByHolder(s, u);
      }
    }
    forall u | Holds(next, u) ensures IsDue(next.votes, next.tasks[u].now, next.tasks[u].held.value) {
      assert u != w ==> Holds(s, u);
    }
  }

  lemma CommitKeepsSafe(s: System, w: Worker)
    requires Safe(s) && Enabled(s, CommitClose(w))
    ensures Safe(Apply(s, CommitClose(w)))
  {
    var next, id := Apply(s, CommitClose(w)), s.tasks[w].held.value;
    assert forall u :: Holds(next, u) ==> u != w && Holds(s, u);
    forall u | Holds(next, u) ensures IsDue(next.votes, next.tasks[u].now, next.tasks[u].held.value) {
      assert s.tasks[u].held != s.tasks[w].held;
    }
    forall i | 0 <= i < |s.closings| ensures s.closings[i] != id {
      assert s.votes[s.closings[i]].status.Closed?;
    }
  }

  lemma CloseByHandKeepsSafe(s: System, id: VoteId)
    requires Safe(s) && Enabled(s, CloseByHand(id))
    ensures Safe(Apply(s, CloseByHand(id)))
  {
    var next := Apply(s, CloseByHand(id));
    forall u | Holds(next, u) ensures IsDue(next.votes, next.tasks[u].now, next.tasks[u].held.value) {
      LockedByHolder(s, u);
    }
    forall i | 0 <= i < |s.closings| ensures s.closings[i] != id {
      assert s.votes[s.closings[i]].status.Closed?;
    }
  }

  lemma StepKeepsSafe(s: System, step: Step)
    requires Safe(s) && Enabled(s, step)
    ensures Safe(Apply(s, step))
  {
    match step
    case TryLock(w) => TryLockKeepsSafe(s, w);
    case CommitClose(w) => CommitKeepsSafe(s, w);
    case CloseByHand(id) => CloseByHandKeepsSafe(s, id);
    case Scan(w, now, ids) =>
      assert forall u :: Holds(Apply(s, step), u) ==> u != w && Holds(s, u);
    case Fail(w) =>
      assert forall u :: Holds(Apply(s, step), u) ==> u != w && Holds(s, u);
    case Reschedule(id, closesAt) =>
      forall u | Holds(s, u) ensures s.tasks[u].held.value != id {
        LockedByHolder(s, u);
      }
    case OpenVote(id, closesAt) =>
  }

  /**
   Over every interleaving of any number of workers with each other and with manual changes, no vote
   is closed twice, and a worker closes only a vote that is open and past its end at that moment.
   */
  lemma {:induction false} RunsCloseOnce(s: System, steps: seq<Step>)
    requires Safe(s) && IsRun(s, steps)
    ensures Safe(AfterRun(s, steps))
    ensures forall i :: 0 <= i < |steps| && steps[i].CommitClose? ==>
              var at := AfterRun(s, steps[..i]);
              && Holds(at, steps[i].w)
              && IsDue(at.votes, at.tasks[steps[i].w].now, at.tasks[steps[i].w].held.value)
    decreases |steps|
  {
    if steps != [] {
      StepKeepsSafe(s, steps[0]);
      RunsCloseOnce(Apply(s, steps[0]), steps[1..]);
      forall i | 0 <= i < |steps| && steps[i].CommitClose?
        ensures var at := AfterRun(s, steps[..i]);
                && Holds(at, steps[i].w)
                && IsDue(at.votes, at.tasks[steps[i].w].now, at.tasks[steps[i].w].held.value)
      {
        if i > 0 {
          assert steps[..i][0] == steps[0] && steps[..i][1..] == steps[1..][..i - 1];
          assert steps[1..][i - 1] == steps[i];
        } else {
          assert steps[..0] == [];
        }
      }
    }
  }

  /** From a system in which nothing has happened yet, no run closes a vote twice. */
  lemma FreshRunsCloseOnce(votes: map<VoteId, Vote>, steps: seq<Step>)
    requires IsRun(System(votes, map[], []), steps)
    ensures var closings := AfterRun(System(votes, map[], []), steps).closings;
            forall i, j :: 0 <= i < j < |closings| ==> closings[i] != closings[j]
  {
    NothingIsSafe(votes);
    RunsCloseOnce(System(votes, map[], []), steps);
  }

  /** A closed vote stays closed, so the cron never takes it up again. */
  lemma {:induction false} ClosedStaysClosed(s: System, steps: seq<Step>, id: VoteId)
    requires Safe(s) && IsRun(s, steps) && id in s.votes && s.votes[id].status.Closed?
    ensures var at := AfterRun(s, steps); id in at.votes && at.votes[id].status.Closed?
    decreases |steps|
  {
    if steps != [] {
      StepKeepsSafe(s, steps[0]);
      ClosedStaysClosed(Apply(s, steps[0]), steps[1..], id);
    }
  }
}
