/** One-time use of proof-of-work solutions: the in-memory store and the verifier on top of it. */
module ReplayGuard {

  /** One request to the store at a moment of the clock. */
  datatype Call = Call(key: string, now: int)

  // -- the store ----------------------------------------------------------------------------------------

  function Live(entries: map<string, int>, now: int): map<string, int> {
    map k | k in entries && entries[k] > now :: entries[k]
  }

  predicate IsReplay(entries: map<string, int>, call: Call) {
    call.key in Live(entries, call.now)
  }

  function After(entries: map<string, int>, call: Call, ttl: int): map<string, int> {
    var live := Live(entries, call.now);
    if call.key in live then live else live[call.key := call.now + ttl]
  }

  class InMemoryReplayGuard {
    var entries: map<string, int>

    constructor ()
      ensures entries == map[]
    {
      entries := map[];
    }

    /** Record the key and report whether it was seen; a replay extends no entry. */
    method Seen(key: string, ttl: int, now: int) returns (replay: bool)
      modifies this
      ensures replay == IsReplay(old(entries), Call(key, now))
      ensures entries == After(old(entries), Call(key, now), ttl)
      ensures replay ==> forall k :: k in entries ==> k in old(entries) && entries[k] == old(entries)[k]
      ensures !replay ==> key in entries && entries[key] == now + ttl
    {
      var live := map k | k in entries && entries[k] > now :: entries[k];
      replay := key in live;
      entries := if replay then live else live[key := now + ttl];
    }
  }

  // -- the store against the full history ------------------------------------------------------------------

  /** The clock never runs backwards from `now` on. */
  predicate Forward(calls: seq<Call>, now: int) {
    && (forall i :: 0 <= i < |calls| ==> calls[i].now >= now)
    && (forall i, j :: 0 <= i < j < |calls| ==> calls[i].now <= calls[j].now)
  }

  /** The answers of the store to a sequence of calls. */
  function Answers(entries: map<string, int>, calls: seq<Call>, ttl: int): seq<bool>
    decreases |calls|
  {
    if calls == [] then [] else
      [IsReplay(entries, calls[0])] + Answers(After(entries, calls[0], ttl), calls[1..], ttl)
  }

  /** A first use of the key that is less than `ttl` old. */
  ghost predicate UsedWithin(log: seq<Call>, call: Call, ttl: int) {
    exists i :: 0 <= i < |log| && log[i].key == call.key && log[i].now + ttl > call.now
  }

  /** The log of first uses after a sequence of calls, when nothing is ever forgotten. */
  ghost function FirstUses(log: seq<Call>, calls: seq<Call>, ttl: int): seq<Call>
    decreases |calls|
  {
    if calls == [] then log
    else FirstUses(if UsedWithin(log, calls[0], ttl) then log else log + [calls[0]], calls[1..], ttl)
  }

  ghost function HistoryAnswers(log: seq<Call>, calls: seq<Call>, ttl: int): seq<bool>
    decreases |calls|
  {
    if calls == [] then []
    else
      var replay := UsedWithin(log, calls[0], ttl);
      [replay] + HistoryAnswers(if replay then log else log + [calls[0]], calls[1..], ttl)
  }

  /** From `now` on the store and the log answer alike. */
  ghost predicate Agrees(entries: map<string, int>, log: seq<Call>, now: int, ttl: int) {
    forall k: string, t: int :: t >= now ==> (IsReplay(entries, Call(k, t)) <==> UsedWithin(log, Call(k, t), ttl))
  }

  lemma AppendedUse(log: seq<Call>, use: Call, call: Call, ttl: int)
    ensures UsedWithin(log + [use], call, ttl) <==>
            UsedWithin(log, call, ttl) || (use.key == call.key && use.now + ttl > call.now)
  {
    var longer := log + [use];
    assert longer[|log|] == use;
    assert forall i :: 0 <= i < |log| ==> longer[i] == log[i];
  }

  lemma StepKeepsAgreement(entries: map<string, int>, log: seq<Call>, call: Call, ttl: int)
    requires Agrees(entries, log, call.now, ttl)
    ensures Agrees(After(entries, call, ttl), if UsedWithin(log, call, ttl) then log else log + [call], call.now, ttl)
  {
    assert IsReplay(entries, Call(call.key, call.now)) <==> UsedWithin(log, Call(call.key, call.now), ttl);
    forall k: string, t: int | t >= call.now
      ensures IsReplay(After(entries, call, ttl), Call(k, t)) <==>
              UsedWithin(if UsedWithin(log, call, ttl) then log else log + [call], Call(k, t), ttl)
    {
      assert IsReplay(entries, Call(k, t)) <==> UsedWithin(log, Call(k, t), ttl);
      assert IsReplay(entries, Call(k, call.now)) <==> UsedWithin(log, Call(k, call.now), ttl);
      AppendedUse(log, call, Call(k, t), ttl);
    }
  }

  /** On a clock that never runs backwards the store answers as the unbounded history would. */
  lemma {:induction false} StoreAgreesWithHistory(entries: map<string, int>, log: seq<Call>, calls: seq<Call>, now: int, ttl: int)
    requires Agrees(entries, log, now, ttl) && Forward(calls, now)
    ensures Answers(entries, calls, ttl) == HistoryAnswers(log, calls, ttl)
    decreases |calls|
  {
    if calls != [] {
      var call := calls[0];
      StepKeepsAgreement(entries, log, call, ttl);
      assert IsReplay(entries, Call(call.key, call.now)) <==> UsedWithin(log, Call(call.key, call.now), ttl);
      StoreAgreesWithHistory(After(entries, call, ttl), if UsedWithin(log, call, ttl) then log else log + [call],
                             calls[1..], call.now, ttl);
    }
  }

  lemma EmptyStoreAgreesWithHistory(calls: seq<Call>, ttl: int)
    requires calls != [] ==> Forward(calls, calls[0].now)
    ensures Answers(map[], calls, ttl) == HistoryAnswers([], calls, ttl)
  {
    if calls != [] {
      StoreAgreesWithHistory(map[], [], calls, calls[0].now, ttl);
    }
  }

  /** Two accepted uses of one key are at least `ttl` apart, whatever the clock does. */
  ghost predicate Spaced(log: seq<Call>, ttl: int) {
    forall i, j :: 0 <= i < j < |log| && log[i].key == log[j].key ==> log[j].now >= log[i].now + ttl
  }

  lemma {:induction false} FirstUsesAreSpaced(log: seq<Call>, calls: seq<Call>, ttl: int)
    requires Spaced(log, ttl)
    ensures Spaced(FirstUses(log, calls, ttl), ttl)
    decreases |calls|
  {
    if calls != [] {
      var next := if UsedWithin(log, calls[0], ttl) then log else log + [calls[0]];
      forall i, j | 0 <= i < j < |next| && next[i].key == next[j].key ensures next[j].now >= next[i].now + ttl {
        if j == |log| {
          assert next[i] == log[i];
        }
      }
      FirstUsesAreSpaced(next, calls[1..], ttl);
    }
  }

  /** The calls the history accepts are the log it leaves. */
  function Accepted(calls: seq<Call>, answers: seq<bool>): seq<Call>
    requires |answers| == |calls|
  {
    if calls == [] then [] else (if answers[0] then [] else [calls[0]]) + Accepted(calls[1..], answers[1..])
  }

  lemma AcceptedFirst(calls: seq<Call>, replay: bool, rest: seq<bool>)
    requires |calls| == 1 + |rest|
    ensures Accepted(calls, [replay] + rest) == (if replay then [] else [calls[0]]) + Accepted(calls[1..], rest)
  {
    assert ([replay] + rest)[1..] == rest;
  }

  lemma Append(log: seq<Call>, first: seq<Call>, later: seq<Call>)
    ensures log + (first + later) == (log + first) + later && log + [] == log
  {
  }

  lemma {:induction false} AcceptedIsLog(log: seq<Call>, calls: seq<Call>, ttl: int)
    ensures |HistoryAnswers(log, calls, ttl)| == |calls|
    ensures log + Accepted(calls, HistoryAnswers(log, calls, ttl)) == FirstUses(log, calls, ttl)
    decreases |calls|
  {
    if calls == [] {
      Append(log, [], []);
    } else {
      var replay := UsedWithin(log, calls[0], ttl);
      var first := if replay then [] else [calls[0]];
      var next := if replay then log else log + [calls[0]];
      var rest := HistoryAnswers(next, calls[1..], ttl);
      AcceptedIsLog(next, calls[1..], ttl);
      AcceptedFirst(calls, replay, rest);
      Append(log, first, Accepted(calls[1..], rest));
    }
  }

  /** What the store accepts, over every run on a forward clock: one key at most once per `ttl`. */
  lemma AcceptedCallsAreSpaced(calls: seq<Call>, ttl: int)
    requires calls != [] ==> Forward(calls, calls[0].now)
    ensures |Answers(map[], calls, ttl)| == |calls|
    ensures Spaced(Accepted(calls, Answers(map[], calls, ttl)), ttl)
  {
    EmptyStoreAgreesWithHistory(calls, ttl);
    AcceptedIsLog([], calls, ttl);
    FirstUsesAreSpaced([], calls, ttl);
    assert [] + Accepted(calls, HistoryAnswers([], calls, ttl)) == Accepted(calls, HistoryAnswers([], calls, ttl));
  }

  // -- pruning -------------------------------------------------------------------------------------------------

  /** The answers of a store that keeps every entry for good. */
  function AnswersWithoutPruning(entries: map<string, int>, calls: seq<Call>, ttl: int): seq<bool>
    decreases |calls|
  {
    if calls == [] then [] else
      var replay := IsReplay(entries, calls[0]);
      [replay] + AnswersWithoutPruning(if replay then entries else entries[calls[0].key := calls[0].now + ttl], calls[1..], ttl)
  }

  /** Dropping expired entries changes no answer while the clock runs forward. */
  lemma {:induction false} PruningChangesNoAnswer(pruned: map<string, int>, full: map<string, int>, calls: seq<Call>, now: int, ttl: int)
    requires Forward(calls, now) && Live(pruned, now) == Live(full, now)
    ensures Answers(pruned, calls, ttl) == AnswersWithoutPruning(full, calls, ttl)
    decreases |calls|
  {
    if calls != [] {
      var call := calls[0];
      LiveLater(pruned, full, now, call.now);
      var next := if IsReplay(full, call) then full else full[call.key := call.now + ttl];
      RecordKeepsLive(pruned, full, call, ttl);
      PruningChangesNoAnswer(After(pruned, call, ttl), next, calls[1..], call.now, ttl);
    }
  }

  /** Recording a call in both stores leaves them with the same live entries. */
  lemma RecordKeepsLive(pruned: map<string, int>, full: map<string, int>, call: Call, ttl: int)
    requires Live(pruned, call.now) == Live(full, call.now)
    ensures IsReplay(pruned, call) <==> IsReplay(full, call)
    ensures var next := if IsReplay(full, call) then full else full[call.key := call.now + ttl];
            Live(After(pruned, call, ttl), call.now) == Live(next, call.now)
  {
    assert IsReplay(pruned, call) <==> call.key in Live(pruned, call.now);
    assert IsReplay(full, call) <==> call.key in Live(full, call.now);
    LiveTwice(pruned, call.now);
    if !IsReplay(full, call) {
      LiveOfRecorded(full, call, ttl);
      LiveOfRecorded(Live(pruned, call.now), call, ttl);
    }
  }

  lemma LiveTwice(entries: map<string, int>, now: int)
    ensures Live(Live(entries, now), now) == Live(entries, now)
  {
  }

  lemma LiveOfRecorded(entries: map<string, int>, call: Call, ttl: int)
    requires !IsReplay(entries, call)
    ensures Live(entries[call.key := call.now + ttl], call.now)
            == if ttl > 0 then Live(entries, call.now)[call.key := call.now + ttl] else Live(entries, call.now)
  {
  }

  lemma LiveLater(a: map<string, int>, b: map<string, int>, now: int, later: int)
    requires Live(a, now) == Live(b, now) && now <= later
    ensures Live(a, later) == Live(b, later)
  {
    assert Live(a, later) == Live(Live(a, now), later);
    assert Live(b, later) == Live(Live(b, now), later);
  }

  /** A clock that runs backwards breaks this: the pruned key is accepted again inside its window. */
  lemma BackwardClockForgets()
    ensures var calls := [Call("a", 0), Call("b", 20), Call("a", 5)];
            Answers(map[], calls, 10) == [false, false, false] && AnswersWithoutPruning(map[], calls, 10) == [false, false, true]
  {
    var calls := [Call("a", 0), Call("b", 20), Call("a", 5)];
    var first := After(map[], calls[0], 10);
    assert first == map["a" := 10];
    var second := After(first, calls[1], 10);
    assert second == map["b" := 30];
    assert calls[1..][0] == calls[1] && calls[1..][1..] == [calls[2]] && [calls[2]][1..] == [];
    assert Answers(second, [calls[2]], 10) == [false];
    assert Answers(first, calls[1..], 10) == [false, false];
    var full := map["a" := 10, "b" := 30];
    assert AnswersWithoutPruning(full, [calls[2]], 10) == [true];
    assert AnswersWithoutPruning(map["a" := 10], calls[1..], 10) == [false, true];
  }
}
