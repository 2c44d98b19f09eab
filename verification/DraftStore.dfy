/**
 Draft uploads, their tokens and their stored objects, as steps that interleave: uploads, binds,
 deletes by the owner, findings of the virus scan, and the purge with its storage removals.
 */
module DraftStore {
  import opened Wrappers

  type Id = string
  type Token = string
  type Key = string

  /** An attachment: a draft names its token, a bound one does not. An infected file has no key. */
  datatype Row = Row(key: Option<Key>, token: Option<Token>)

  /**
   `uploading` holds objects whose row is not yet inserted, `doomed` keys whose row is gone and whose
   object some process still has to remove.
   */
  datatype Store = Store(
    rows: map<Id, Row>,
    tokens: map<Token, int>,
    objects: set<Key>,
    uploading: set<Key>,
    doomed: set<Key>)

  const PURGE_BATCH: nat := 500

  predicate IsExpiredDraft(rows: map<Id, Row>, tokens: map<Token, int>, now: int, id: Id) {
    id in rows && rows[id].token.Some? && rows[id].token.value in tokens && tokens[rows[id].token.value] <= now
  }

  /** Expired is a draft, never a bound attachment, whose token has come to its end. */
  lemma ExpiredMeans(rows: map<Id, Row>, tokens: map<Token, int>, now: int, id: Id)
    ensures IsExpiredDraft(rows, tokens, now, id) <==>
              id in rows && exists t :: rows[id].token == Some(t) && t in tokens && tokens[t] <= now
  {
  }

  /** The end of a draft is the end of its token. */
  function EndOf(rows: map<Id, Row>, tokens: map<Token, int>, id: Id): int {
    if id in rows && rows[id].token.Some? && rows[id].token.value in tokens then tokens[rows[id].token.value] else 0
  }

  function ExpiredDrafts(rows: map<Id, Row>, tokens: map<Token, int>, now: int): set<Id> {
    set id | id in rows && IsExpiredDraft(rows, tokens, now, id)
  }

  function KeysOf(rows: map<Id, Row>, ids: set<Id>): set<Key> {
    set id | id in ids && id in rows && rows[id].key.Some? :: rows[id].key.value
  }

  /**
   A batch as the locking SELECT returns it: expired drafts that nobody else holds, the oldest first,
   as many as fit.
   */
  ghost predicate IsBatch(rows: map<Id, Row>, tokens: map<Token, int>, now: int, locked: set<Id>, batch: set<Id>) {
    var free := ExpiredDrafts(rows, tokens, now) - locked;
    && batch <= free
    && (batch == free || |batch| == PURGE_BATCH)
    && |batch| <= PURGE_BATCH
    && forall a, b :: a in batch && b in free - batch ==> EndOf(rows, tokens, a) <= EndOf(rows, tokens, b)
  }

  /** Deleting token rows cascades to the attachments that name them. */
  function DeleteTokens(s: Store, gone: set<Token>): Store {
    s.(tokens := s.tokens - gone,
       rows := map id | id in s.rows && !(s.rows[id].token.Some? && s.rows[id].token.value in gone) :: s.rows[id])
  }

  function HeldTokens(rows: map<Id, Row>): set<Token> {
    set id | id in rows && rows[id].token.Some? :: rows[id].token.value
  }

  function EmptyExpiredTokens(rows: map<Id, Row>, tokens: map<Token, int>, now: int): set<Token> {
    set t | t in tokens && tokens[t] <= now && t !in HeldTokens(rows)
  }

  // -- steps -----------------------------------------------------------------------------------------

  datatype Step =
    | PutObject(key: Key)
    | InsertRow(id: Id, key: Key, token: Token, expiresAt: int)
    | AbandonUpload(key: Key)
    | Bind(id: Id)
    | DeleteDraft(id: Id)
    | Quarantine(id: Id)
    | PurgeBatch(now: int, locked: set<Id>, batch: set<Id>)
    | RemoveObject(key: Key, removed: bool)
    | StopRemoving(keys: set<Key>)
    | PurgeTokens(now: int)

  ghost predicate Enabled(s: Store, step: Step) {
    match step
    case PutObject(key) => key !in s.objects && key !in s.uploading + s.doomed + KeysOf(s.rows, s.rows.Keys)
    case InsertRow(id, key, _, _) => id !in s.rows && key in s.uploading
    case AbandonUpload(key) => key in s.uploading
    case Bind(id) => id in s.rows && s.rows[id].token.Some?
    case DeleteDraft(id) => id in s.rows && s.rows[id].token.Some?
    case Quarantine(id) => id in s.rows
    case PurgeBatch(now, locked, batch) => IsBatch(s.rows, s.tokens, now, locked, batch)
    case RemoveObject(key, _) => key in s.doomed
    case StopRemoving(_) => true
    case PurgeTokens(_) => true
  }

  function WithoutRows(s: Store, ids: set<Id>): Store {
    s.(rows := s.rows - ids, doomed := s.doomed + KeysOf(s.rows, ids))
  }

  function Apply(s: Store, step: Step): Store {
    match step
    case PutObject(key) => s.(objects := s.objects + {key}, uploading := s.uploading + {key})
    case InsertRow(id, key, token, expiresAt) =>
      s.(rows := s.rows[id := Row(Some(key), Some(token))], tokens := s.tokens[token := expiresAt],
         uploading := s.uploading - {key})
    case AbandonUpload(key) => s.(uploading := s.uploading - {key})
    case Bind(id) => if id in s.rows then s.(rows := s.rows[id := s.rows[id].(token := None)]) else s
    case DeleteDraft(id) => WithoutRows(s, {id})
    case Quarantine(id) =>
      if id in s.rows then s.(rows := s.rows[id := s.rows[id].(key := None)], doomed := s.doomed + KeysOf(s.rows, {id})) else s
    case PurgeBatch(_, _, batch) => WithoutRows(s, batch)
    case RemoveObject(key, removed) =>
      s.(objects := if removed then s.objects - {key} else s.objects, doomed := s.doomed - {key})
    case StopRemoving(keys) => s.(doomed := s.doomed - keys)
    case PurgeTokens(now) => DeleteTokens(s, EmptyExpiredTokens(s.rows, s.tokens, now))
  }

  ghost predicate IsRun(s: Store, steps: seq<Step>)
    decreases |steps|
  {
    steps != [] ==> Enabled(s, steps[0]) && IsRun(Apply(s, steps[0]), steps[1..])
  }

  function AfterRun(s: Store, steps: seq<Step>): Store
    decreases |steps|
  {
    if steps == [] then s else AfterRun(Apply(s, steps[0]), steps[1..])
  }

  /** The steps are a run from one state to another. */
  ghost predicate Leads(from: Store, steps: seq<Step>, to: Store) {
    IsRun(from, steps) && AfterRun(from, steps) == to
  }

  /** A run goes on from where another one ended. */
  lemma {:induction false} RunsJoin(from: Store, a: seq<Step>, middle: Store, b: seq<Step>, to: Store)
    requires Leads(from, a, middle) && Leads(middle, b, to)
    ensures Leads(from, a + b, to)
    decreases |a|
  {
    if a == [] {
      assert a + b == b;
    } else {
      assert (a + b)[0] == a[0] && (a + b)[1..] == a[1..] + b;
      RunsJoin(Apply(from, a[0]), a[1..], middle, b, to);
    }
  }

  lemma NoStepLeads(s: Store)
    ensures Leads(s, [], s)
  {
  }

  lemma StepLeads(s: Store, step: Step)
    requires Enabled(s, step)
    ensures Leads(s, [step], Apply(s, step))
  {
    assert [step][1..] == [];
  }

  // -- the invariant -----------------------------------------------------------------------------------

  /** Every row with a key has its object, and no other row or process owns that object. */
  ghost predicate Sound(s: Store) {
    && (forall id :: id in s.rows && s.rows[id].key.Some? ==>
          && s.rows[id].key.value in s.objects
          && s.rows[id].key.value !in s.uploading
          && s.rows[id].key.value !in s.doomed)
    && (forall a, b :: a in s.rows && b in s.rows && a != b && s.rows[a].key.Some? ==> s.rows[a].key != s.rows[b].key)
    && s.uploading <= s.objects && s.uploading !! s.doomed
    && (forall id :: id in s.rows && s.rows[id].token.Some? ==> s.rows[id].token.value in s.tokens)
  }

  /** The purge of tokens takes only tokens that no draft names, so the cascade removes nothing. */
  lemma PurgingTokensRemovesNoRow(s: Store, now: int)
    ensures Apply(s, PurgeTokens(now)).rows == s.rows
  {
    forall id | id in s.rows && s.rows[id].token.Some?
      ensures s.rows[id].token.value !in EmptyExpiredTokens(s.rows, s.tokens, now)
    {
      assert s.rows[id].token.value in HeldTokens(s.rows);
    }
  }

  lemma RemovingRowsKeepsSound(s: Store, ids: set<Id>)
    requires Sound(s)
    ensures Sound(WithoutRows(s, ids))
  {
  }

  lemma StepKeepsSound(s: Store, step: Step)
    requires Sound(s) && Enabled(s, step)
    ensures Sound(Apply(s, step))
  {
    match step
    case PutObject(key) =>
      forall id | id in s.rows && s.rows[id].key.Some? ensures s.rows[id].key.value != key {
        assert s.rows[id].key.value in KeysOf(s.rows, s.rows.Keys);
      }
    case DeleteDraft(id) => RemovingRowsKeepsSound(s, {id});
    case PurgeBatch(_, _, batch) => RemovingRowsKeepsSound(s, batch);
    case PurgeTokens(now) =>
      PurgingTokensRemovesNoRow(s, now);
      forall id | id in s.rows && s.rows[id].token.Some? ensures s.rows[id].token.value in Apply(s, step).tokens {
        assert s.rows[id].token.value in HeldTokens(s.rows);
      }
    case _ =>
  }

  /**
   Over every interleaving, with removals that fail or stop half way, each attachment keeps its stored
   object and each draft keeps its token.
   */
  lemma {:induction false} RunsKeepSound(s: Store, steps: seq<Step>)
    requires Sound(s) && IsRun(s, steps)
    ensures Sound(AfterRun(s, steps))
    decreases |steps|
  {
    if steps != [] {
      StepKeepsSound(s, steps[0]);
      RunsKeepSound(Apply(s, steps[0]), steps[1..]);
    }
  }

  /**
   A bound attachment is never touched again by the purge: its row stays over every run, and unless the
   scan finds something in it, the row is unchanged and its object is there.
   */
  lemma {:induction false} BoundAttachmentsStay(s: Store, steps: seq<Step>, id: Id)
    requires Sound(s) && IsRun(s, steps) && id in s.rows && s.rows[id].token.None?
    ensures id in AfterRun(s, steps).rows && AfterRun(s, steps).rows[id].token.None?
    ensures Quarantine(id) !in steps ==> AfterRun(s, steps).rows[id] == s.rows[id]
    ensures Quarantine(id) !in steps && s.rows[id].key.Some? ==> s.rows[id].key.value in AfterRun(s, steps).objects
    decreases |steps|
  {
    if steps != [] {
      StepKeepsSound(s, steps[0]);
      if steps[0].PurgeTokens? {
        PurgingTokensRemovesNoRow(s, steps[0].now);
      }
      BoundAttachmentsStay(Apply(s, steps[0]), steps[1..], id);
    }
  }

  /** A draft goes only with its own delete, or with a purge after the end of its token. */
  lemma DraftsGoOnlyWhenExpired(s: Store, step: Step, id: Id)
    requires Sound(s) && Enabled(s, step) && id in s.rows && id !in Apply(s, step).rows
    ensures step == DeleteDraft(id) || (step.PurgeBatch? && id !in step.locked && IsExpiredDraft(s.rows, s.tokens, step.now, id))
  {
    if step.PurgeTokens? {
      PurgingTokensRemovesNoRow(s, step.now);
    }
  }

  /** No owner deletes the draft, and each purge comes before the end of its token or finds the row locked. */
  ghost predicate Spared(s: Store, steps: seq<Step>, id: Id)
    decreases |steps|
  {
    steps != [] ==>
      && steps[0] != DeleteDraft(id)
      && (steps[0].PurgeBatch? ==> id in steps[0].locked || !IsExpiredDraft(s.rows, s.tokens, steps[0].now, id))
      && Spared(Apply(s, steps[0]), steps[1..], id)
  }

  lemma StepSparesDraft(s: Store, step: Step, id: Id)
    requires Sound(s) && Enabled(s, step) && id in s.rows && s.rows[id].token.Some?
    requires step != DeleteDraft(id)
    requires step.PurgeBatch? ==> id in step.locked || !IsExpiredDraft(s.rows, s.tokens, step.now, id)
    ensures id in Apply(s, step).rows
    ensures Apply(s, step).rows[id].token == if step == Bind(id) then None else s.rows[id].token
  {
    if step.PurgeTokens? {
      PurgingTokensRemovesNoRow(s, step.now);
    }
  }

  /**
   A draft outlives every run of uploads, binds, scans and purges in which no owner deletes it and no
   purge meets it unlocked past the end that the latest upload gave its token.
   */
  lemma {:induction false} ExtendedDraftsSurvive(s: Store, steps: seq<Step>, id: Id)
    requires Sound(s) && IsRun(s, steps) && id in s.rows && s.rows[id].token.Some?
    requires Spared(s, steps, id)
    ensures id in AfterRun(s, steps).rows
    ensures AfterRun(s, steps).rows[id].token == if Bind(id) in steps then None else s.rows[id].token
    decreases |steps|
  {
    if steps != [] {
      StepKeepsSound(s, steps[0]);
      StepSparesDraft(s, steps[0], id);
      if steps[0] == Bind(id) {
        BoundAttachmentsStay(Apply(s, steps[0]), steps[1..], id);
      } else {
        ExtendedDraftsSurvive(Apply(s, steps[0]), steps[1..], id);
      }
    }
  }

  /** An upload moves the end of every draft of its token to the end it sets. */
  lemma UploadMovesTheEnd(s: Store, upload: Step, id: Id)
    requires upload.InsertRow? && Enabled(s, upload) && id in s.rows && s.rows[id].token == Some(upload.token)
    ensures EndOf(Apply(s, upload).rows, Apply(s, upload).tokens, id) == upload.expiresAt
  {
  }

  /** The draft is bound, or its token ends behind the moment. */
  ghost predicate OutOfReach(s: Store, id: Id, moment: int) {
    id in s.rows && (s.rows[id].token.Some? ==> s.rows[id].token.value in s.tokens && EndOf(s.rows, s.tokens, id) > moment)
  }

  /** Steps up to a moment: purges come no later, and uploads set no end up to it. */
  ghost predicate UpTo(steps: seq<Step>, id: Id, moment: int) {
    forall i :: 0 <= i < |steps| ==>
      && steps[i] != DeleteDraft(id)
      && (steps[i].PurgeBatch? ==> steps[i].now <= moment)
      && (steps[i].InsertRow? ==> steps[i].expiresAt > moment)
  }

  lemma StepKeepsOutOfReach(s: Store, step: Step, id: Id, moment: int)
    requires Sound(s) && Enabled(s, step) && OutOfReach(s, id, moment) && UpTo([step], id, moment)
    ensures OutOfReach(Apply(s, step), id, moment)
  {
    assert [step][0] == step;
    StepKeepsSound(s, step);
    if s.rows[id].token.Some? {
      if step.InsertRow? && s.rows[id].token == Some(step.token) {
        UploadMovesTheEnd(s, step, id);
      }
      StepSparesDraft(s, step, id);
    } else if step.PurgeTokens? {
      PurgingTokensRemovesNoRow(s, step.now);
    }
  }

  /**
   An upload carries all drafts of its token with it: whatever the purges up to a moment before the end
   that it sets, and whatever comes in between, no draft of the token goes but by its owner.
   */
  lemma UploadKeepsDrafts(s: Store, upload: Step, steps: seq<Step>, id: Id, moment: int)
    requires Sound(s) && IsRun(s, [upload] + steps)
    requires upload.InsertRow? && upload.expiresAt > moment && UpTo(steps, id, moment)
    requires id in s.rows && s.rows[id].token == Some(upload.token)
    ensures id in AfterRun(s, [upload] + steps).rows
  {
    assert ([upload] + steps)[0] == upload && ([upload] + steps)[1..] == steps;
    StepKeepsSound(s, upload);
    UploadMovesTheEnd(s, upload, id);
    OutOfReachStays(Apply(s, upload), steps, id, moment);
  }

  lemma {:induction false} OutOfReachStays(s: Store, steps: seq<Step>, id: Id, moment: int)
    requires Sound(s) && IsRun(s, steps) && OutOfReach(s, id, moment) && UpTo(steps, id, moment)
    ensures OutOfReach(AfterRun(s, steps), id, moment)
    decreases |steps|
  {
    if steps != [] {
      assert UpTo([steps[0]], id, moment) && UpTo(steps[1..], id, moment);
      StepKeepsSound(s, steps[0]);
      StepKeepsOutOfReach(s, steps[0], id, moment);
      OutOfReachStays(Apply(s, steps[0]), steps[1..], id, moment);
    }
  }
}
