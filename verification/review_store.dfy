/**
  The review table as an in-memory store: rows keyed by a store-assigned id that
  counts up from 1 and is never reused (deleting rows does not reset it), with a
  unique index on `hostawayId`. `Snapshot` is the table's value; `Store` is the
  object the services update in place, and each of its methods is specified by
  the function on `Snapshot` that gives its effect.
*/
module ReviewStore {
  import opened ReviewModel

  datatype Snapshot = Snapshot(rows: map<int, Review>, nextId: int)

  /** No two rows share a `hostawayId` (the column's unique index). */
  predicate UniqueHostawayIds(rows: map<int, Review>) {
    forall i, j :: i in rows && j in rows && i != j ==> rows[i].hostawayId != rows[j].hostawayId
  }

  /** Ids are positive and below the next id to hand out; the unique index holds. */
  predicate WellFormed(s: Snapshot) {
    && 1 <= s.nextId
    && (forall id :: id in s.rows ==> 1 <= id < s.nextId)
    && UniqueHostawayIds(s.rows)
  }

  predicate HasHostawayId(rows: map<int, Review>, h: int) {
    exists id :: id in rows && rows[id].hostawayId == h
  }

  /** Index lookup: scans the ids below `n`, highest first, for a row whose `hostawayId` is `h`. */
  function FindHostawayId(rows: map<int, Review>, h: int, n: int): (r: Option<int>)
    ensures r.Some? ==> 0 <= r.value < n && r.value in rows && rows[r.value].hostawayId == h
    ensures r.None? ==> forall id :: 0 <= id < n && id in rows ==> rows[id].hostawayId != h
    decreases n
  {
    if n <= 0 then None
    else if n - 1 in rows && rows[n - 1].hostawayId == h then Some(n - 1)
    else FindHostawayId(rows, h, n - 1)
  }

  function Lookup(s: Snapshot, h: int): (r: Option<int>)
    ensures WellFormed(s) ==> (r.Some? <==> HasHostawayId(s.rows, h))
    ensures r.Some? ==> r.value in s.rows && s.rows[r.value].hostawayId == h
  {
    FindHostawayId(s.rows, h, s.nextId)
  }

  /** `deleteMany({})`: every row goes; the id counter keeps counting. */
  function Wipe(s: Snapshot): Snapshot {
    Snapshot(map[], s.nextId)
  }

  /** `create`: adds `data` under the next id, unless the unique index already holds its `hostawayId`. */
  function CreateRow(s: Snapshot, data: Review): (r: Result<Snapshot>)
    ensures WellFormed(s) ==> (r.Ok? <==> !HasHostawayId(s.rows, data.hostawayId))
    ensures r.Err? ==> r.error == UniqueViolation(data.hostawayId)
    ensures r.Ok? ==> r.value == Snapshot(s.rows[s.nextId := data], s.nextId + 1)
    ensures WellFormed(s) && r.Ok? ==> WellFormed(r.value) && s.nextId !in s.rows
  {
    match Lookup(s, data.hostawayId)
    case Some(_) => Err(UniqueViolation(data.hostawayId))
    case None => Ok(Snapshot(s.rows[s.nextId := data], s.nextId + 1))
  }

  /**
    `upsert` keyed on `create.hostawayId`: the row holding that id gets the new
    `rating` and `content` and keeps every other field; without such a row,
    `create` is added under the next id.
  */
  function UpsertRow(s: Snapshot, rating: real, content: string, create: Review): (r: Snapshot)
    ensures WellFormed(s) ==> WellFormed(r)
    ensures WellFormed(s) && HasHostawayId(s.rows, create.hostawayId) ==>
      && r.nextId == s.nextId
      && r.rows == map id | id in s.rows ::
           if s.rows[id].hostawayId == create.hostawayId
           then s.rows[id].(rating := rating, content := content)
           else s.rows[id]
    ensures WellFormed(s) && !HasHostawayId(s.rows, create.hostawayId) ==>
      && s.nextId !in s.rows
      && r == Snapshot(s.rows[s.nextId := create], s.nextId + 1)
  {
    match Lookup(s, create.hostawayId)
    case Some(id) =>
      var r := Snapshot(s.rows[id := s.rows[id].(rating := rating, content := content)], s.nextId);
      if WellFormed(s) then UpdateOnlyHolder(s.rows, id, rating, content); r else r
    case None => Snapshot(s.rows[s.nextId := create], s.nextId + 1)
  }

  /** Under the unique index, updating the one row that holds `rows[id].hostawayId` updates every row holding it. */
  lemma UpdateOnlyHolder(rows: map<int, Review>, id: int, rating: real, content: string)
    requires UniqueHostawayIds(rows) && id in rows
    ensures UniqueHostawayIds(rows[id := rows[id].(rating := rating, content := content)])
    ensures rows[id := rows[id].(rating := rating, content := content)] ==
      map id' | id' in rows ::
        if rows[id'].hostawayId == rows[id].hostawayId
        then rows[id'].(rating := rating, content := content)
        else rows[id']
  {
    var h := rows[id].hostawayId;
    var updated := rows[id := rows[id].(rating := rating, content := content)];
    var byKey := map id' | id' in rows ::
      if rows[id'].hostawayId == h then rows[id'].(rating := rating, content := content) else rows[id'];
    assert updated.Keys == byKey.Keys;
    forall k | k in updated ensures updated[k] == byKey[k] {
      if k != id {
        assert rows[k].hostawayId != h;
      }
    }
    forall i, j | i in updated && j in updated && i != j
      ensures updated[i].hostawayId != updated[j].hostawayId
    {
      assert updated[i].hostawayId == rows[i].hostawayId;
      assert updated[j].hostawayId == rows[j].hostawayId;
    }
  }

  /** `update({ where: { id }, data: { isVisible } })`. */
  function SetVisibility(s: Snapshot, id: int, isVisible: bool): (r: Result<Snapshot>)
    ensures r.Err? <==> id !in s.rows
    ensures r.Err? ==> r.error == NotFound(id)
    ensures r.Ok? ==>
      && r.value.nextId == s.nextId
      && r.value.rows.Keys == s.rows.Keys
      && r.value.rows[id].isVisible == isVisible
      && r.value.rows[id].(isVisible := s.rows[id].isVisible) == s.rows[id]
      && (forall k :: k in s.rows && k != id ==> r.value.rows[k] == s.rows[k])
  {
    if id in s.rows then Ok(Snapshot(s.rows[id := s.rows[id].(isVisible := isVisible)], s.nextId))
    else Err(NotFound(id))
  }

  /** Setting the same visibility twice leaves the table as setting it once. */
  lemma SetVisibilityIdempotent(s: Snapshot, id: int, isVisible: bool)
    requires id in s.rows
    ensures SetVisibility(SetVisibility(s, id, isVisible).value, id, isVisible) == SetVisibility(s, id, isVisible)
  {
    var once := SetVisibility(s, id, isVisible).value;
    assert once.rows[id].(isVisible := isVisible) == once.rows[id];
    assert once.rows[id := once.rows[id].(isVisible := isVisible)] == once.rows;
  }

  /** Changing a flag keeps the table well-formed. */
  lemma SetVisibilityWellFormed(s: Snapshot, id: int, isVisible: bool)
    requires WellFormed(s) && id in s.rows
    ensures WellFormed(SetVisibility(s, id, isVisible).value)
  {
    var t := SetVisibility(s, id, isVisible).value;
    forall i, j | i in t.rows && j in t.rows && i != j
      ensures t.rows[i].hostawayId != t.rows[j].hostawayId
    {
      assert t.rows[i].hostawayId == s.rows[i].hostawayId;
      assert t.rows[j].hostawayId == s.rows[j].hostawayId;
    }
  }

  /** The rows with ids below `n`, in ascending id order: what a scan of the table returns. */
  function Listing(rows: map<int, Review>, n: int): (t: seq<Row>)
    ensures forall x :: x in t <==> 0 <= x.id < n && x.id in rows && rows[x.id] == x.review
    ensures forall i, j :: 0 <= i < j < |t| ==> t[i].id < t[j].id
    decreases n
  {
    if n <= 0 then []
    else
      var prefix := Listing(rows, n - 1);
      prefix + (if n - 1 in rows then [Row(n - 1, rows[n - 1])] else [])
  }

  /** The whole table, in ascending id order. */
  function Table(s: Snapshot): (t: seq<Row>)
    ensures WellFormed(s) ==> forall x :: x in t <==> x.id in s.rows && s.rows[x.id] == x.review
    ensures forall i, j :: 0 <= i < j < |t| ==> t[i].id < t[j].id
  {
    Listing(s.rows, s.nextId)
  }

  /** The table object the services write to. */
  class Store {
    var rows: map<int, Review>
    var nextId: int

    function State(): Snapshot
      reads this
    {
      Snapshot(rows, nextId)
    }

    predicate Valid()
      reads this
    {
      WellFormed(State())
    }

    /** The rows in ascending id order. */
    function Rows(): seq<Row>
      reads this
    {
      Table(State())
    }

    constructor ()
      ensures Valid() && rows == map[] && nextId == 1
    {
      rows := map[];
      nextId := 1;
    }

    function FindUnique(id: int): (r: Option<Review>)
      reads this
      ensures r.Some? <==> id in rows
      ensures r.Some? ==> r.value == rows[id]
    {
      if id in rows then Some(rows[id]) else None
    }

    method DeleteMany()
      requires Valid()
      modifies this
      ensures Valid() && State() == Wipe(old(State()))
    {
      rows := map[];
    }

    /** Returns the new row's id. */
    method Create(data: Review) returns (r: Result<int>)
      requires Valid()
      modifies this
      ensures Valid()
      ensures r.Ok? <==> CreateRow(old(State()), data).Ok?
      ensures r.Ok? ==> r.value == old(nextId) && State() == CreateRow(old(State()), data).value
      ensures r.Ok? ==> rows == old(rows)[old(nextId) := data]
      ensures r.Err? ==> r.error == UniqueViolation(data.hostawayId) && State() == old(State())
    {
      var found := Lookup(State(), data.hostawayId);
      if found.Some? {
        return Err(UniqueViolation(data.hostawayId));
      }
      rows := rows[nextId := data];
      r := Ok(nextId);
      nextId := nextId + 1;
    }

    /**
      `upsert` whose `create` payload holds the date `createdAt`. The whole
      argument is checked before the write, so an Invalid Date is refused
      whichever branch would run, and nothing changes.
    */
    method Upsert(rating: real, content: string, create: Review, createdAt: RawDate) returns (r: Result<()>)
      requires Valid()
      modifies this
      ensures Valid()
      ensures !createdAt.valid ==> r == Err(InvalidDate(create.hostawayId)) && State() == old(State())
      ensures createdAt.valid ==> r == Ok(()) && State() == UpsertRow(old(State()), rating, content, create)
    {
      if !createdAt.valid {
        return Err(InvalidDate(create.hostawayId));
      }
      r := Ok(());
      var found := Lookup(State(), create.hostawayId);
      match found
      case Some(id) =>
        rows := rows[id := rows[id].(rating := rating, content := content)];
      case None =>
        rows := rows[nextId := create];
        nextId := nextId + 1;
    }

    /** Returns the updated row; fails with NotFound when no row has `id`. */
    method Update(id: int, isVisible: bool) returns (r: Result<Row>)
      requires Valid()
      modifies this
      ensures Valid()
      ensures SetVisibility(old(State()), id, isVisible).Ok? <==> r.Ok?
      ensures r.Ok? ==> State() == SetVisibility(old(State()), id, isVisible).value && r.value == Row(id, rows[id])
      ensures r.Err? ==> r.error == NotFound(id) && State() == old(State())
    {
      if id !in rows {
        return Err(NotFound(id));
      }
      SetVisibilityWellFormed(State(), id, isVisible);
      rows := rows[id := rows[id].(isVisible := isVisible)];
      r := Ok(Row(id, rows[id]));
    }
  }
}
