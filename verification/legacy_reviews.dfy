/**
  The older reviews service: it reconciles the table with the mock dataset by
  upserting each record on its `hostawayId`, builds its query objects field by
  field, and toggles a review's visibility.

  `UpsertAll` is the reconciliation as a value: the table after each record,
  how many records went through, and the failure that stopped it. The service's
  loop is proved to leave the store in `UpsertAll`'s table, and the lemmas below
  say what that table is.
*/
module LegacyReviews {
  import opened ReviewModel
  import opened ReviewStore
  import opened ReviewQuery

  /** A mock-data record as this version reads it; only `reviewCategory` may be missing. */
  datatype LegacyRecord = LegacyRecord(
    id: int,
    listingName: string,
    guestName: string,
    rating: real,
    publicReview: string,
    channel: string,
    reviewType: string,
    submittedAt: RawDate,
    reviewCategory: Option<seq<Category>>)

  /**
    The `create` branch of the upsert. The record's own fields, hidden from the
    dashboard, with `[]` for missing categories; `status` is not written, so the
    row gets the column default `statusDefault`.
  */
  function CreatePayload(rec: LegacyRecord, statusDefault: string): (r: Review)
    ensures NewRowOf(r, rec) && !r.isVisible && r.status == statusDefault
    ensures r.rating == rec.rating && r.content == rec.publicReview
  {
    Review(
      hostawayId := rec.id,
      listingName := rec.listingName,
      guestName := rec.guestName,
      rating := rec.rating,
      content := rec.publicReview,
      channel := rec.channel,
      reviewType := rec.reviewType,
      status := statusDefault,
      date := rec.submittedAt.ms,
      categories := rec.reviewCategory.GetOr([]),
      isVisible := false)
  }

  /** One upsert: refresh `rating` and `content` of the row holding `rec.id`, or create it. */
  function UpsertOne(t: Snapshot, rec: LegacyRecord, statusDefault: string): (u: Snapshot)
    ensures WellFormed(t) ==> WellFormed(u)
    ensures WellFormed(t) ==> (u.rows.Keys == t.rows.Keys <==> HasHostawayId(t.rows, rec.id))
  {
    UpsertRow(t, rec.rating, rec.publicReview, CreatePayload(rec, statusDefault))
  }

  /** The last record of `batch` whose id is `h`. */
  function LastWith(batch: seq<LegacyRecord>, h: int): (r: Option<LegacyRecord>)
    ensures r.None? <==> forall i :: 0 <= i < |batch| ==> batch[i].id != h
    ensures r.Some? ==>
      exists i :: 0 <= i < |batch| && batch[i] == r.value && r.value.id == h &&
        forall j :: i < j < |batch| ==> batch[j].id != h
    decreases |batch|
  {
    if batch == [] then None
    else if batch[|batch| - 1].id == h then Some(batch[|batch| - 1])
    else LastWith(batch[..|batch| - 1], h)
  }

  /** What the update branch of one upsert does to a row: `rating` and `content` from `rec` when the ids agree. */
  function RefreshedBy(row: Review, rec: LegacyRecord): Review {
    if row.hostawayId == rec.id then row.(rating := rec.rating, content := rec.publicReview) else row
  }

  /** A row after `batch` went over it: `rating` and `content` from the last record with its id, if any. */
  function Refreshed(row: Review, batch: seq<LegacyRecord>): (r: Review)
    ensures r.(rating := row.rating, content := row.content) == row
    ensures (forall i :: 0 <= i < |batch| ==> batch[i].id != row.hostawayId) ==> r == row
  {
    match LastWith(batch, row.hostawayId)
    case None => row
    case Some(rec) => row.(rating := rec.rating, content := rec.publicReview)
  }

  /** Going over one more record is one more update branch. */
  lemma RefreshedSnoc(row: Review, batch: seq<LegacyRecord>, x: LegacyRecord)
    ensures Refreshed(row, batch + [x]) == RefreshedBy(Refreshed(row, batch), x)
  {
    assert (batch + [x])[..|batch|] == batch;
  }

  /** Refreshing twice from the same batch is refreshing once. */
  lemma RefreshedIdempotent(row: Review, batch: seq<LegacyRecord>)
    ensures Refreshed(Refreshed(row, batch), batch) == Refreshed(row, batch)
  {
  }

  /**
    One upsert on a well-formed table: each row is kept, with `rating` and
    `content` overwritten where it holds the record's id and nothing else
    changed; the only row that can appear is the record's `create` payload under
    the next id, and only when the id was not there; afterwards the id is there.
  */
  lemma UpsertOneEffect(t: Snapshot, x: LegacyRecord, statusDefault: string)
    requires WellFormed(t)
    ensures var u := UpsertOne(t, x, statusDefault);
      && WellFormed(u)
      && u.nextId >= t.nextId
      && (forall id :: id in t.rows ==> id in u.rows && u.rows[id] == RefreshedBy(t.rows[id], x))
      && (forall id :: id in u.rows && id !in t.rows ==>
            !HasHostawayId(t.rows, x.id) && id == t.nextId && u.rows[id] == CreatePayload(x, statusDefault))
      && HasHostawayId(u.rows, x.id)
      && (HasHostawayId(t.rows, x.id) ==> u.nextId == t.nextId && u.rows.Keys == t.rows.Keys)
  {
    var u := UpsertOne(t, x, statusDefault);
    if HasHostawayId(t.rows, x.id) {
      var id :| id in t.rows && t.rows[id].hostawayId == x.id;
      assert u.rows[id].hostawayId == x.id;
    } else {
      assert u.rows[t.nextId] == CreatePayload(x, statusDefault);
    }
  }

  predicate AllDated(batch: seq<LegacyRecord>) {
    forall i :: 0 <= i < |batch| ==> batch[i].submittedAt.valid
  }

  /** The table, the number of records upserted, and the error that aborted the rest. */
  datatype Progress = Progress(snap: Snapshot, done: nat, failure: Option<Error>)

  /**
    The reconciliation loop as a value. A record whose `submittedAt` is not a
    date makes the store refuse the upsert: the loop stops there, and the
    upserts before it stay.
  */
  function UpsertAll(s: Snapshot, batch: seq<LegacyRecord>, statusDefault: string): (p: Progress)
    ensures WellFormed(s) ==> WellFormed(p.snap)
    ensures p.snap.nextId >= s.nextId
    ensures p.failure.None? <==> AllDated(batch)
    ensures p.failure.None? ==> p.done == |batch|
    ensures p.failure.Some? ==>
      && p.done < |batch|
      && AllDated(batch[..p.done])
      && !batch[p.done].submittedAt.valid
      && p.failure.value == InvalidDate(batch[p.done].id)
    decreases |batch|
  {
    if batch == [] then Progress(s, 0, None)
    else
      var prefix := batch[..|batch| - 1];
      var rec := batch[|batch| - 1];
      var prior := UpsertAll(s, prefix, statusDefault);
      assert prior.failure.Some? ==> batch[..prior.done] == prefix[..prior.done];
      if prior.failure.Some? then prior
      else if !rec.submittedAt.valid then
        assert batch[..prior.done] == prefix;
        Progress(prior.snap, prior.done, Some(InvalidDate(rec.id)))
      else
        Progress(UpsertOne(prior.snap, rec, statusDefault), prior.done + 1, None)
  }

  /** One more dated record after a clean prefix is one more upsert. */
  lemma UpsertAllAdvances(s: Snapshot, batch: seq<LegacyRecord>, k: nat, statusDefault: string)
    requires k < |batch| && batch[k].submittedAt.valid
    requires UpsertAll(s, batch[..k], statusDefault).failure.None?
    ensures UpsertAll(s, batch[..k + 1], statusDefault) ==
      Progress(UpsertOne(UpsertAll(s, batch[..k], statusDefault).snap, batch[k], statusDefault), k + 1, None)
  {
    assert batch[..k + 1][..k] == batch[..k];
  }

  /** An undated record after a clean prefix ends the reconciliation there. */
  lemma UpsertAllRefuses(s: Snapshot, batch: seq<LegacyRecord>, k: nat, statusDefault: string)
    requires k < |batch| && !batch[k].submittedAt.valid
    requires UpsertAll(s, batch[..k], statusDefault).failure.None?
    ensures UpsertAll(s, batch, statusDefault) ==
      Progress(UpsertAll(s, batch[..k], statusDefault).snap, k, Some(InvalidDate(batch[k].id)))
  {
    assert batch[..k + 1][..k] == batch[..k];
    FailureIsFinal(s, batch, k + 1, statusDefault);
  }

  /** A batch of dated records is its prefix and one more upsert. */
  lemma UpsertAllLast(s: Snapshot, batch: seq<LegacyRecord>, statusDefault: string)
    requires batch != [] && AllDated(batch)
    ensures batch == batch[..|batch| - 1] + [batch[|batch| - 1]]
    ensures AllDated(batch[..|batch| - 1])
    ensures UpsertAll(s, batch, statusDefault).snap ==
      UpsertOne(UpsertAll(s, batch[..|batch| - 1], statusDefault).snap, batch[|batch| - 1], statusDefault)
  {
    var prefix := batch[..|batch| - 1];
    assert batch == prefix + [batch[|batch| - 1]];
    DatedPrefix(batch, |batch| - 1);
    assert UpsertAll(s, prefix, statusDefault).failure.None?;
  }

  lemma DatedPrefix(batch: seq<LegacyRecord>, n: nat)
    requires n <= |batch| && AllDated(batch)
    ensures AllDated(batch[..n])
  {
    forall i | 0 <= i < n ensures batch[..n][i].submittedAt.valid {
      assert batch[..n][i] == batch[i];
    }
  }

  /** A stopped reconciliation ignores one more record. */
  lemma UpsertAllStopped(s: Snapshot, batch: seq<LegacyRecord>, x: LegacyRecord, statusDefault: string)
    requires UpsertAll(s, batch, statusDefault).failure.Some?
    ensures UpsertAll(s, batch + [x], statusDefault) == UpsertAll(s, batch, statusDefault)
  {
    assert (batch + [x])[..|batch|] == batch;
  }

  /** Once a record has been refused, the records after it change nothing. */
  lemma {:induction false} FailureIsFinal(s: Snapshot, batch: seq<LegacyRecord>, k: nat, statusDefault: string)
    requires k <= |batch| && UpsertAll(s, batch[..k], statusDefault).failure.Some?
    ensures UpsertAll(s, batch, statusDefault) == UpsertAll(s, batch[..k], statusDefault)
    decreases |batch| - k
  {
    if k < |batch| {
      assert batch[..k + 1] == batch[..k] + [batch[k]];
      UpsertAllStopped(s, batch[..k], batch[k], statusDefault);
      FailureIsFinal(s, batch, k + 1, statusDefault);
    } else {
      assert batch[..k] == batch;
    }
  }

  /** A failed reconciliation leaves exactly the table the records before the refused one produced. */
  lemma FailureKeepsEarlierUpserts(s: Snapshot, batch: seq<LegacyRecord>, statusDefault: string)
    requires UpsertAll(s, batch, statusDefault).failure.Some?
    ensures var p := UpsertAll(s, batch, statusDefault);
      p.snap == UpsertAll(s, batch[..p.done], statusDefault).snap &&
      UpsertAll(s, batch[..p.done], statusDefault).failure.None?
  {
    var p := UpsertAll(s, batch, statusDefault);
    var k := p.done + 1;
    assert batch[..k][..p.done] == batch[..p.done];
    assert batch[..k][k - 1] == batch[p.done];
    FailureIsFinal(s, batch, k, statusDefault);
  }

  /** Every row of `s` is in `t`, refreshed from `batch`. */
  predicate KeptRefreshed(s: Snapshot, batch: seq<LegacyRecord>, t: Snapshot) {
    forall id :: id in s.rows ==> id in t.rows && t.rows[id] == Refreshed(s.rows[id], batch)
  }

  /** Record `i` is the first of `batch` with its id. */
  predicate FirstWith(batch: seq<LegacyRecord>, i: int) {
    0 <= i < |batch| && forall j :: 0 <= j < i ==> batch[j].id != batch[i].id
  }

  /**
    Every row of `t` not in `s` is the hidden `create` payload of the first
    record with its id, refreshed from `batch`.
  */
  predicate NewRowsCreated(s: Snapshot, batch: seq<LegacyRecord>, statusDefault: string, t: Snapshot) {
    forall id :: id in t.rows && id !in s.rows ==>
      && s.nextId <= id
      && !t.rows[id].isVisible
      && exists i :: 0 <= i < |batch| && FirstWith(batch, i) && t.rows[id] == Refreshed(CreatePayload(batch[i], statusDefault), batch)
  }

  /** Every record's id is held by a row. */
  predicate AllPresent(rows: map<int, Review>, batch: seq<LegacyRecord>) {
    forall i :: 0 <= i < |batch| ==> HasHostawayId(rows, batch[i].id)
  }

  /**
    What a successful reconciliation of `batch` made of table `s`, as table `t`:
    the unique index holds; no row went away; an existing row kept every field
    but `rating` and `content`, which come from the last record with its
    `hostawayId`; a new row is the `create` payload of the first record with its
    id, hidden, refreshed the same way; and every record's id is in the table.
  */
  predicate Reconciled(s: Snapshot, batch: seq<LegacyRecord>, statusDefault: string, t: Snapshot) {
    && WellFormed(t)
    && t.nextId >= s.nextId
    && KeptRefreshed(s, batch, t)
    && NewRowsCreated(s, batch, statusDefault, t)
    && AllPresent(t.rows, batch)
  }

  lemma StepKeptRefreshed(s: Snapshot, batch: seq<LegacyRecord>, x: LegacyRecord, t: Snapshot, u: Snapshot)
    requires KeptRefreshed(s, batch, t)
    requires forall id :: id in t.rows ==> id in u.rows && u.rows[id] == RefreshedBy(t.rows[id], x)
    ensures KeptRefreshed(s, batch + [x], u)
  {
    forall id | id in s.rows ensures u.rows[id] == Refreshed(s.rows[id], batch + [x]) {
      RefreshedSnoc(s.rows[id], batch, x);
    }
  }

  lemma StepNewRowsCreated(s: Snapshot, batch: seq<LegacyRecord>, x: LegacyRecord, statusDefault: string, t: Snapshot, u: Snapshot)
    requires NewRowsCreated(s, batch, statusDefault, t) && t.nextId >= s.nextId
    requires AllPresent(t.rows, batch)
    requires forall id :: id in t.rows ==> id in u.rows && u.rows[id] == RefreshedBy(t.rows[id], x)
    requires forall id :: id in u.rows && id !in t.rows ==>
      !HasHostawayId(t.rows, x.id) && id == t.nextId && u.rows[id] == CreatePayload(x, statusDefault)
    ensures NewRowsCreated(s, batch + [x], statusDefault, u)
  {
    var b := batch + [x];
    forall id | id in u.rows && id !in s.rows
      ensures s.nextId <= id && !u.rows[id].isVisible
      ensures exists i :: 0 <= i < |b| && FirstWith(b, i) && u.rows[id] == Refreshed(CreatePayload(b[i], statusDefault), b)
    {
      if id in t.rows {
        var i :| 0 <= i < |batch| && FirstWith(batch, i) && t.rows[id] == Refreshed(CreatePayload(batch[i], statusDefault), batch);
        EarlierCreateKept(batch, x, i, statusDefault);
      } else {
        LaterCreateFirst(batch, x, t.rows, statusDefault);
      }
    }
  }

  /** A row created for an earlier first record stays that record's payload, refreshed by one more record. */
  lemma EarlierCreateKept(batch: seq<LegacyRecord>, x: LegacyRecord, i: int, statusDefault: string)
    requires 0 <= i < |batch| && FirstWith(batch, i)
    ensures FirstWith(batch + [x], i) && (batch + [x])[i] == batch[i]
    ensures RefreshedBy(Refreshed(CreatePayload(batch[i], statusDefault), batch), x) ==
      Refreshed(CreatePayload(batch[i], statusDefault), batch + [x])
  {
    var b := batch + [x];
    RefreshedSnoc(CreatePayload(batch[i], statusDefault), batch, x);
    forall j | 0 <= j < i ensures b[j].id != b[i].id {
      assert b[j] == batch[j] && b[i] == batch[i];
    }
  }

  /** A row created for `x` is created for the first record with `x`'s id, and no record before it reaches it. */
  lemma LaterCreateFirst(batch: seq<LegacyRecord>, x: LegacyRecord, rows: map<int, Review>, statusDefault: string)
    requires AllPresent(rows, batch) && !HasHostawayId(rows, x.id)
    ensures FirstWith(batch + [x], |batch|) && (batch + [x])[|batch|] == x
    ensures CreatePayload(x, statusDefault) == Refreshed(CreatePayload(x, statusDefault), batch + [x])
  {
    var b := batch + [x];
    RefreshedSnoc(CreatePayload(x, statusDefault), batch, x);
    forall j | 0 <= j < |batch| ensures b[j].id != x.id {
      assert b[j] == batch[j] && HasHostawayId(rows, batch[j].id);
    }
  }

  lemma StepAllPresent(batch: seq<LegacyRecord>, x: LegacyRecord, t: Snapshot, u: Snapshot)
    requires AllPresent(t.rows, batch) && HasHostawayId(u.rows, x.id)
    requires forall id :: id in t.rows ==> id in u.rows && u.rows[id].hostawayId == t.rows[id].hostawayId
    ensures AllPresent(u.rows, batch + [x])
  {
    var b := batch + [x];
    forall i | 0 <= i < |b| ensures HasHostawayId(u.rows, b[i].id) {
      if i < |batch| {
        assert HasHostawayId(t.rows, batch[i].id);
        var id :| id in t.rows && t.rows[id].hostawayId == batch[i].id;
        assert u.rows[id].hostawayId == b[i].id;
      }
    }
  }

  /** A successful reconciliation: see `Reconciled`. In particular no two rows share a `hostawayId`. */
  lemma {:induction false} UpsertAllReconciles(s: Snapshot, batch: seq<LegacyRecord>, statusDefault: string)
    requires WellFormed(s) && AllDated(batch)
    ensures Reconciled(s, batch, statusDefault, UpsertAll(s, batch, statusDefault).snap)
    decreases |batch|
  {
    if batch == [] {
      assert KeptRefreshed(s, batch, s);
    } else {
      var prefix := batch[..|batch| - 1];
      var x := batch[|batch| - 1];
      UpsertAllLast(s, batch, statusDefault);
      UpsertAllReconciles(s, prefix, statusDefault);
      var t := UpsertAll(s, prefix, statusDefault).snap;
      var u := UpsertOne(t, x, statusDefault);
      UpsertOneEffect(t, x, statusDefault);
      StepKeptRefreshed(s, prefix, x, t, u);
      StepNewRowsCreated(s, prefix, x, statusDefault, t, u);
      StepAllPresent(prefix, x, t, u);
    }
  }

  /**
    After a successful reconciliation every row that was there is still there;
    a row whose `hostawayId` the batch names has the `rating` and `content` of
    the last record naming it and every other field as before; any other row is
    untouched.
  */
  lemma ExistingRowsOnlyRefreshed(s: Snapshot, batch: seq<LegacyRecord>, statusDefault: string)
    requires WellFormed(s) && AllDated(batch)
    ensures var t := UpsertAll(s, batch, statusDefault).snap;
      forall id :: id in s.rows ==>
        && id in t.rows
        && t.rows[id].(rating := s.rows[id].rating, content := s.rows[id].content) == s.rows[id]
        && (LastWith(batch, s.rows[id].hostawayId).None? ==> t.rows[id] == s.rows[id])
        && (LastWith(batch, s.rows[id].hostawayId).Some? ==>
              && t.rows[id].rating == LastWith(batch, s.rows[id].hostawayId).value.rating
              && t.rows[id].content == LastWith(batch, s.rows[id].hostawayId).value.publicReview)
  {
    UpsertAllReconciles(s, batch, statusDefault);
  }

  /**
    After a successful reconciliation every row that was not there before holds
    an id the old table did not, is hidden, carries the column-default status,
    and is the `create` payload of the first record with that id: its listing,
    guest, channel, type and date, and its categories or [] when it had none.
    Later records with the id only reach its `rating` and `content`.
  */
  lemma NewRowsAreHiddenCreates(s: Snapshot, batch: seq<LegacyRecord>, statusDefault: string)
    requires WellFormed(s) && AllDated(batch)
    ensures var t := UpsertAll(s, batch, statusDefault).snap;
      forall id :: id in t.rows && id !in s.rows ==>
        && !HasHostawayId(s.rows, t.rows[id].hostawayId)
        && !t.rows[id].isVisible
        && t.rows[id].status == statusDefault
        && exists i :: 0 <= i < |batch| && FirstWith(batch, i) && NewRowOf(t.rows[id], batch[i])
  {
    var t := UpsertAll(s, batch, statusDefault).snap;
    UpsertAllReconciles(s, batch, statusDefault);
    forall id | id in t.rows && id !in s.rows
      ensures !HasHostawayId(s.rows, t.rows[id].hostawayId)
      ensures t.rows[id].status == statusDefault
      ensures exists i :: 0 <= i < |batch| && FirstWith(batch, i) && NewRowOf(t.rows[id], batch[i])
    {
      var i :| 0 <= i < |batch| && FirstWith(batch, i) && t.rows[id] == Refreshed(CreatePayload(batch[i], statusDefault), batch);
      assert NewRowOf(t.rows[id], batch[i]);
    }
  }

  /** `row` came from `rec`'s `create` payload: the record's id and descriptive fields, its categories or []. */
  predicate NewRowOf(row: Review, rec: LegacyRecord) {
    && row.hostawayId == rec.id
    && row.listingName == rec.listingName
    && row.guestName == rec.guestName
    && row.channel == rec.channel
    && row.reviewType == rec.reviewType
    && row.date == rec.submittedAt.ms
    && row.categories == rec.reviewCategory.GetOr([])
  }

  /** The refresh of every row of `t` from `batch`, with no row added. */
  function RefreshAll(t: Snapshot, batch: seq<LegacyRecord>): (r: Snapshot)
    ensures r.nextId == t.nextId && r.rows.Keys == t.rows.Keys
    ensures forall id :: id in t.rows ==> r.rows[id] == Refreshed(t.rows[id], batch)
  {
    Snapshot(map id | id in t.rows :: Refreshed(t.rows[id], batch), t.nextId)
  }

  /** When every record's id is already in the table, reconciliation creates nothing and only refreshes. */
  lemma {:induction false} UpsertAllOnPresent(t: Snapshot, batch: seq<LegacyRecord>, statusDefault: string)
    requires WellFormed(t) && AllDated(batch) && AllPresent(t.rows, batch)
    ensures UpsertAll(t, batch, statusDefault).snap == RefreshAll(t, batch)
    decreases |batch|
  {
    if batch == [] {
      assert RefreshAll(t, batch).rows == t.rows;
    } else {
      var prefix := batch[..|batch| - 1];
      var x := batch[|batch| - 1];
      UpsertAllLast(t, batch, statusDefault);
      assert AllPresent(t.rows, prefix) && HasHostawayId(t.rows, x.id);
      UpsertAllOnPresent(t, prefix, statusDefault);
      RefreshAllStep(t, prefix, x, statusDefault);
    }
  }

  /** Upserting a record whose id the table holds is one more refresh of every row. */
  lemma RefreshAllStep(t: Snapshot, prefix: seq<LegacyRecord>, x: LegacyRecord, statusDefault: string)
    requires WellFormed(RefreshAll(t, prefix)) && HasHostawayId(t.rows, x.id)
    ensures UpsertOne(RefreshAll(t, prefix), x, statusDefault) == RefreshAll(t, prefix + [x])
  {
    var u := RefreshAll(t, prefix);
    assert HasHostawayId(u.rows, x.id) by {
      var id :| id in t.rows && t.rows[id].hostawayId == x.id;
      assert u.rows[id].hostawayId == x.id;
    }
    UpsertOneEffect(u, x, statusDefault);
    var v := UpsertOne(u, x, statusDefault);
    assert forall id :: id in t.rows ==> v.rows[id] == RefreshedBy(Refreshed(t.rows[id], prefix), x);
    RefreshedByAll(t, prefix, x, v);
  }

  /** A table whose every row went through `prefix` and then `x` is the refresh of `t` from `prefix + [x]`. */
  lemma RefreshedByAll(t: Snapshot, prefix: seq<LegacyRecord>, x: LegacyRecord, v: Snapshot)
    requires v.nextId == t.nextId && v.rows.Keys == t.rows.Keys
    requires forall id :: id in t.rows ==> v.rows[id] == RefreshedBy(Refreshed(t.rows[id], prefix), x)
    ensures v == RefreshAll(t, prefix + [x])
  {
    forall id | id in t.rows ensures v.rows[id] == Refreshed(t.rows[id], prefix + [x]) {
      RefreshedSnoc(t.rows[id], prefix, x);
    }
    assert v.rows == RefreshAll(t, prefix + [x]).rows;
  }

  /**
    Reconciling the same batch a second time changes nothing: the same rows,
    the same `isVisible` flags, the same contents, and the same outcome. A
    retry of a sync that stopped at a refused record stops at the same record
    with the same error, and leaves the table as the first run left it.
  */
  lemma SyncTwiceChangesNothing(s: Snapshot, batch: seq<LegacyRecord>, statusDefault: string)
    requires WellFormed(s)
    ensures var p := UpsertAll(s, batch, statusDefault);
      UpsertAll(p.snap, batch, statusDefault) == p
  {
    var p := UpsertAll(s, batch, statusDefault);
    if AllDated(batch) {
      SyncTwiceDatedChangesNothing(s, batch, statusDefault);
    } else {
      var k := p.done;
      FailureKeepsEarlierUpserts(s, batch, statusDefault);
      SyncTwiceDatedChangesNothing(s, batch[..k], statusDefault);
      assert batch[..k + 1] == batch[..k] + [batch[k]];
      assert (batch[..k] + [batch[k]])[..k] == batch[..k];
      assert UpsertAll(p.snap, batch[..k + 1], statusDefault) == p;
      FailureIsFinal(p.snap, batch, k + 1, statusDefault);
    }
  }

  /** A successful reconciliation run again over the same batch changes nothing and counts every record. */
  lemma SyncTwiceDatedChangesNothing(s: Snapshot, batch: seq<LegacyRecord>, statusDefault: string)
    requires WellFormed(s) && AllDated(batch)
    ensures var t := UpsertAll(s, batch, statusDefault).snap;
      UpsertAll(t, batch, statusDefault) == Progress(t, |batch|, None)
  {
    var t := UpsertAll(s, batch, statusDefault).snap;
    UpsertAllReconciles(s, batch, statusDefault);
    UpsertAllOnPresent(t, batch, statusDefault);
    ReconciledIsFixed(s, batch, statusDefault, t);
  }

  /** A reconciled table is already refreshed from its batch. */
  lemma ReconciledIsFixed(s: Snapshot, batch: seq<LegacyRecord>, statusDefault: string, t: Snapshot)
    requires Reconciled(s, batch, statusDefault, t)
    ensures RefreshAll(t, batch) == t
  {
    forall id | id in t.rows ensures Refreshed(t.rows[id], batch) == t.rows[id] {
      if id in s.rows {
        RefreshedIdempotent(s.rows[id], batch);
      } else {
        var i :| 0 <= i < |batch| && FirstWith(batch, i) && t.rows[id] == Refreshed(CreatePayload(batch[i], statusDefault), batch);
        RefreshedIdempotent(CreatePayload(batch[i], statusDefault), batch);
      }
    }
    RefreshAllUnchanged(t, batch);
  }

  /** Refreshing changes no table whose every row is already refreshed. */
  lemma RefreshAllUnchanged(t: Snapshot, batch: seq<LegacyRecord>)
    requires forall id :: id in t.rows ==> Refreshed(t.rows[id], batch) == t.rows[id]
    ensures RefreshAll(t, batch) == t
  {
    var r := RefreshAll(t, batch);
    assert r.rows.Keys == t.rows.Keys;
    forall id | id in r.rows ensures r.rows[id] == t.rows[id] {
      assert r.rows[id] == Refreshed(t.rows[id], batch);
    }
    assert r.rows == t.rows;
  }
  /**
    `syncReviews`: upserts every mock record in order and counts them. An
    unreadable file is an error before any write. A record the store refuses
    aborts the rest and the error is rethrown; the upserts before it stay.
  */
  method SyncReviews(store: Store, mock: FileRead<LegacyRecord>, statusDefault: string) returns (r: Result<nat>)
    requires store.Valid()
    modifies store
    ensures store.Valid()
    ensures mock.Unreadable? ==> r == Err(MockDataUnreadable) && store.State() == old(store.State())
    ensures mock.Loaded? ==> store.State() == UpsertAll(old(store.State()), mock.records, statusDefault).snap
    ensures mock.Loaded? ==> (r.Ok? <==> AllDated(mock.records))
    ensures mock.Loaded? && r.Ok? ==> r.value == |mock.records|
    ensures mock.Loaded? && r.Err? ==> r.error == UpsertAll(old(store.State()), mock.records, statusDefault).failure.value
  {
    if mock.Unreadable? {
      return Err(MockDataUnreadable);
    }
    var reviews := mock.records;
    ghost var start := store.State();
    var count := 0;
    while count < |reviews|
      invariant 0 <= count <= |reviews|
      invariant store.Valid()
      invariant UpsertAll(start, reviews[..count], statusDefault) == Progress(store.State(), count, None)
    {
      var review := reviews[count];
      var written := store.Upsert(review.rating, review.publicReview, CreatePayload(review, statusDefault), review.submittedAt);
      if written.Err? {
        UpsertAllRefuses(start, reviews, count, statusDefault);
        return Err(written.error);
      }
      UpsertAllAdvances(start, reviews, count, statusDefault);
      count := count + 1;
    }
    assert reviews[..count] == reviews;
    return Ok(count);
  }

  /**
    `findAll`'s query objects, built field by field: a constraint per truthy
    text or number and per supplied `isVisible`; the order is the requested
    field (descending unless told), or `date` descending when no field is
    requested, whatever `sortOrder` says.
  */
  method BuildQuery(f: ReviewFilter) returns (w: Where, o: OrderBy)
    ensures forall r :: Satisfies(w, r) <==> MatchesFilter(f, r)
    ensures f.sortBy.Some? ==> o == OrderBy(f.sortBy.value, f.sortOrder.GetOr(Desc))
    ensures f.sortBy.None? ==> o == OrderBy(Date, Desc)
  {
    w := NoConstraint;
    if TextGiven(f.listingName) {
      w := w.(listingContains := Some(f.listingName.value));
    }
    if NumberGiven(f.minRating) {
      w := w.(ratingAtLeast := Some(f.minRating.value));
    }
    if TextGiven(f.channel) {
      w := w.(channelEquals := Some(f.channel.value));
    }
    if f.isVisible.Some? {
      w := w.(isVisible := Some(f.isVisible.value));
    }
    if f.sortBy.Some? {
      o := OrderBy(f.sortBy.value, f.sortOrder.GetOr(Desc));
    } else {
      o := OrderBy(Date, Desc);
    }
  }

  /** `findAll`: a permutation of the matching rows, sorted as `BuildQuery` orders them. */
  method FindAll(table: seq<Row>, f: ReviewFilter) returns (rows: seq<Row>)
    ensures forall x :: x in rows <==> x in table && MatchesFilter(f, x.review)
    ensures multiset(rows) == multiset(Matching(table, f))
    ensures f.sortBy.Some? ==> Sorted(OrderBy(f.sortBy.value, f.sortOrder.GetOr(Desc)), rows)
    ensures f.sortBy.None? ==> Sorted(OrderBy(Date, Desc), rows)
  {
    var w, o := BuildQuery(f);
    SelectIsMatching(table, w, f);
    rows := FindMany(table, w, o);
  }

  /** `updateVisibility`: NotFound and no change on an unknown id; otherwise only that row's flag changes. */
  method UpdateVisibility(store: Store, id: int, isVisible: bool) returns (r: Result<Row>)
    requires store.Valid()
    modifies store
    ensures store.Valid()
    ensures id !in old(store.rows) ==> r == Err(NotFound(id)) && store.State() == old(store.State())
    ensures id in old(store.rows) ==>
      && r == Ok(Row(id, old(store.rows)[id].(isVisible := isVisible)))
      && store.State() == SetVisibility(old(store.State()), id, isVisible).value
  {
    var review := store.FindUnique(id);
    if review.None? {
      return Err(NotFound(id));
    }
    r := store.Update(id, isVisible);
  }
}
