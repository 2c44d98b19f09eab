/** The hourly purge of expired draft uploads, as it runs against the stored rows, tokens and objects. */
module DraftPurge {
  import opened Wrappers
  import opened DraftStore
  import opened Seqs
  import OrderedSelect

  /** The database and the object storage of the worker. */
  class DraftPurger {
    var rows: map<Id, Row>
    var tokens: map<Token, int>
    var objects: set<Key>

    constructor (rows: map<Id, Row>, tokens: map<Token, int>, objects: set<Key>)
      ensures this.rows == rows && this.tokens == tokens && this.objects == objects
    {
      this.rows, this.tokens, this.objects := rows, tokens, objects;
    }

    /** The same state in the step system, with no upload and no removal under way. */
    ghost function State(): Store
      reads this
    {
      Store(rows, tokens, objects, {}, {})
    }

    /** The locking SELECT of a batch: the earliest expired drafts that nobody else holds. */
    method SelectBatch(now: int, locked: set<Id>) returns (batch: set<Id>)
      ensures IsBatch(rows, tokens, now, locked, batch)
    {
      var rows, tokens := rows, tokens;
      var free := set id | id in rows && IsExpiredDraft(rows, tokens, now, id) && id !in locked;
      assert free == ExpiredDrafts(rows, tokens, now) - locked;
      var selected := OrderedSelect.SelectEarliest(free, PURGE_BATCH, id => EndOf(rows, tokens, id));
      OrderedSelect.DistinctCount(selected);
      batch := Elements(selected);
    }

    /** Delete one batch; the keys of its objects come back for removal. */
    method PurgeBatch(now: int, locked: set<Id>) returns (count: nat, keys: set<Key>, ghost batch: set<Id>)
      modifies this`rows
      ensures IsBatch(old(rows), tokens, now, locked, batch)
      ensures rows == old(rows) - batch && count == |batch| && keys == KeysOf(old(rows), batch)
    {
      var selected := SelectBatch(now, locked);
      batch := selected;
      if selected == {} {
        assert rows - batch == rows;
        assert KeysOf(rows, batch) == {};
        return 0, {}, batch;
      }
      keys := set id | id in selected && id in rows && rows[id].key.Some? :: rows[id].key.value;
      rows := rows - selected;
      count := |selected|;
    }

    /** Remove objects as best effort: the storage refuses the keys in `failing`, which stay. */
    method RemoveObjects(keys: set<Key>, failing: set<Key>) returns (ghost steps: seq<Step>)
      modifies this`objects
      ensures objects == old(objects) - (keys - failing)
      ensures Leads(old(State()).(doomed := keys), steps, State())
    {
      var left := keys;
      ghost var from := State().(doomed := keys);
      steps := [];
      NoStepLeads(from);
      while left != {}
        invariant left <= keys
        invariant objects == old(objects) - (keys - left - failing)
        invariant Leads(from, steps, State().(doomed := left))
        decreases left
      {
        var key :| key in left;
        ghost var step := RemoveObject(key, key !in failing);
        ghost var middle := State().(doomed := left);
        StepLeads(middle, step);
        RunsJoin(from, steps, middle, [step], Apply(middle, step));
        steps := steps + [step];
        left := left - {key};
        if key !in failing {
          objects := objects - {key};
        }
      }
    }

    /** Delete the expired tokens that hold no draft. */
    method PurgeTokens(now: int) returns (count: nat)
      modifies this`tokens
      ensures State() == Apply(old(State()), Step.PurgeTokens(now))
      ensures tokens == old(tokens) - EmptyExpiredTokens(rows, old(tokens), now)
      ensures count == |EmptyExpiredTokens(rows, old(tokens), now)|
    {
      var gone := set t | t in tokens && tokens[t] <= now && t !in HeldTokens(rows);
      assert gone == EmptyExpiredTokens(rows, tokens, now);
      PurgingTokensRemovesNoRow(State(), now);
      tokens := tokens - gone;
      count := |gone|;
    }

    /** One batch with the removal of its objects; a batch that is not full leaves no expired draft. */
    method PurgeAndRemove(now: int, failing: set<Key>) returns (count: nat, ghost batch: set<Id>, ghost steps: seq<Step>)
      modifies this`rows, this`objects
      ensures Leads(old(State()), steps, State())
      ensures batch <= ExpiredDrafts(old(rows), tokens, now) && count == |batch| <= PURGE_BATCH
      ensures count < PURGE_BATCH ==> batch == ExpiredDrafts(old(rows), tokens, now)
      ensures rows == old(rows) - batch
      ensures objects == old(objects) - (KeysOf(old(rows), batch) - failing)
    {
      var keys;
      count, keys, batch := PurgeBatch(now, {});
      BatchIsExpired(old(rows), tokens, now, batch);
      ghost var purge := Step.PurgeBatch(now, {}, batch);
      StepLeads(old(State()), purge);
      ghost var middle := State().(doomed := keys);
      assert Apply(old(State()), purge) == middle;
      steps := RemoveObjects(keys, failing);
      RunsJoin(old(State()), [purge], middle, steps, State());
      steps := [purge] + steps;
    }

    /** Batch after batch, until one is not full. */
    method PurgeBatches(now: int, failing: set<Key>) returns (purged: nat, ghost steps: seq<Step>)
      modifies this`rows, this`objects
      ensures Leads(old(State()), steps, State())
      ensures var gone := ExpiredDrafts(old(rows), tokens, now);
              && rows == old(rows) - gone && purged == |gone|
              && objects == old(objects) - (KeysOf(old(rows), gone) - failing)
    {
      purged, steps := 0, [];
      NoStepLeads(State());
      ghost var gone: set<Id> := {};
      assert rows - gone == rows;
      while true
        invariant Leads(old(State()), steps, State())
        invariant gone <= ExpiredDrafts(old(rows), tokens, now)
        invariant rows == old(rows) - gone && purged == |gone|
        invariant objects == old(objects) - (KeysOf(old(rows), gone) - failing)
        decreases |rows|
      {
        ghost var before, middle := rows, State();
        var count, batch, more := PurgeAndRemove(now, failing);
        RunsJoin(old(State()), steps, middle, more, State());
        steps := steps + more;
        BatchJoins(old(rows), tokens, now, gone, batch);
        ObjectsJoin(old(objects), KeysOf(old(rows), gone), KeysOf(before, batch), failing);
        purged, gone := purged + count, gone + batch;
        if count < PURGE_BATCH {
          break;
        }
        FewerRows(before, batch);
      }
    }

    /**
     The whole run while nobody else holds a lock: exactly the expired drafts go, with their objects as
     far as the storage allows, then every expired token; the result is the number of rows removed. The
     run is one of the step system, so what holds over all of its runs holds here.
     */
    method PurgeDraftAttachments(now: int, failing: set<Key>) returns (purged: nat, ghost steps: seq<Step>)
      requires forall id :: id in rows && rows[id].token.Some? ==> rows[id].token.value in tokens
      modifies this
      ensures var gone := ExpiredDrafts(old(rows), old(tokens), now);
              && rows == old(rows) - gone && purged == |gone|
              && objects == old(objects) - (KeysOf(old(rows), gone) - failing)
              && tokens == map t | t in old(tokens) && old(tokens)[t] > now :: old(tokens)[t]
      ensures Leads(old(State()), steps, State())
    {
      purged, steps := PurgeBatches(now, failing);
      ghost var middle, last := State(), Step.PurgeTokens(now);
      StepLeads(middle, last);
      RunsJoin(old(State()), steps, middle, [last], Apply(middle, last));
      steps := steps + [last];
      NoExpiredTokenIsHeld(old(rows), old(tokens), now);
      var emptied := PurgeTokens(now);
    }
  }

  lemma BatchIsExpired(rows: map<Id, Row>, tokens: map<Token, int>, now: int, batch: set<Id>)
    requires IsBatch(rows, tokens, now, {}, batch)
    ensures batch <= ExpiredDrafts(rows, tokens, now)
    ensures |batch| < PURGE_BATCH ==> batch == ExpiredDrafts(rows, tokens, now)
  {
    assert ExpiredDrafts(rows, tokens, now) - {} == ExpiredDrafts(rows, tokens, now);
  }

  lemma ExpiredAmongRest(rows: map<Id, Row>, tokens: map<Token, int>, now: int, gone: set<Id>)
    ensures ExpiredDrafts(rows - gone, tokens, now) == ExpiredDrafts(rows, tokens, now) - gone
  {
  }

  lemma KeysJoin(rows: map<Id, Row>, gone: set<Id>, batch: set<Id>)
    requires gone !! batch
    ensures KeysOf(rows, gone + batch) == KeysOf(rows, gone) + KeysOf(rows - gone, batch)
    ensures rows - gone - batch == rows - (gone + batch)
  {
    forall k | k in KeysOf(rows, gone + batch) ensures k in KeysOf(rows, gone) + KeysOf(rows - gone, batch) {
      var id :| id in gone + batch && id in rows && rows[id].key == Some(k);
      assert id in gone || (id in rows - gone && (rows - gone)[id] == rows[id]);
    }
  }

  lemma ObjectsJoin(objects: set<Key>, a: set<Key>, b: set<Key>, failing: set<Key>)
    ensures objects - (a - failing) - (b - failing) == objects - (a + b - failing)
  {
  }

  /** A further batch of what is left adds to what is gone, and all that is left completes it. */
  lemma BatchJoins(rows: map<Id, Row>, tokens: map<Token, int>, now: int, gone: set<Id>, batch: set<Id>)
    requires gone <= ExpiredDrafts(rows, tokens, now) && batch <= ExpiredDrafts(rows - gone, tokens, now)
    ensures gone !! batch && gone + batch <= ExpiredDrafts(rows, tokens, now)
    ensures |gone + batch| == |gone| + |batch|
    ensures rows - gone - batch == rows - (gone + batch)
    ensures KeysOf(rows, gone + batch) == KeysOf(rows, gone) + KeysOf(rows - gone, batch)
    ensures batch == ExpiredDrafts(rows - gone, tokens, now) ==> gone + batch == ExpiredDrafts(rows, tokens, now)
  {
    ExpiredAmongRest(rows, tokens, now, gone);
    KeysJoin(rows, gone, batch);
  }

  lemma FewerRows(rows: map<Id, Row>, batch: set<Id>)
    requires batch <= rows.Keys && batch != {}
    ensures |rows - batch| < |rows|
  {
    assert (rows - batch).Keys == rows.Keys - batch;
    assert |rows.Keys - batch| == |rows.Keys| - |batch|;
    assert |rows| == |rows.Keys| && |rows - batch| == |(rows - batch).Keys|;
  }

  /** Once the expired drafts are gone, no row holds an expired token. */
  lemma NoExpiredTokenIsHeld(rows: map<Id, Row>, tokens: map<Token, int>, now: int)
    ensures var rest := rows - ExpiredDrafts(rows, tokens, now);
            forall t :: t in tokens ==> (t in EmptyExpiredTokens(rest, tokens, now) <==> tokens[t] <= now)
  {
    var rest := rows - ExpiredDrafts(rows, tokens, now);
    forall t | t in tokens && tokens[t] <= now ensures t !in HeldTokens(rest) {
    }
  }
}
