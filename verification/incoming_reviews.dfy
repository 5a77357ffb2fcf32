/**
  The current reviews service: it maps provider records to stored rows, picks
  the live provider batch or the mock dataset, reloads the table from the mock
  dataset, answers filtered, sorted and paginated queries, toggles a review's
  visibility, and averages a listing's visible ratings.
*/
module IncomingReviews {
  import opened ReviewModel
  import opened ReviewStore
  import opened ReviewQuery

  // ---------------------------------------------------------------------------
  // Provider records and their normalisation

  /** A provider `rating` as `Number(x)` reads it: a number, or NaN (absent or non-numeric). */
  datatype RawRating = Numeric(value: real) | NotANumber

  /** A provider record; every field but `id` may be missing. */
  datatype RawReview = RawReview(
    id: int,
    reviewType: Option<string>,
    status: Option<string>,
    rating: RawRating,
    publicReview: Option<string>,
    reviewCategory: Option<seq<Category>>,
    submittedAt: RawDate,
    guestName: Option<string>,
    listingName: Option<string>,
    channel: Option<string>)

  /** The passthrough shape of the normalised-provider view. */
  datatype DomainReview = DomainReview(
    id: int,
    reviewType: Option<string>,
    status: Option<string>,
    rating: real,
    publicReview: Option<string>,
    reviewCategory: seq<Category>,
    submittedAt: RawDate,
    guestName: Option<string>,
    listingName: Option<string>,
    channel: Option<string>)

  const UnknownListing := "Unknown Listing"
  const Anonymous := "Anonymous"
  const DirectChannel := "direct"
  const GuestToHost := "guest-to-host"
  const Published := "published"

  /** `Number(x) || 0`: NaN and zero both give 0. */
  function CoerceRating(x: RawRating): (r: real)
    ensures x.Numeric? ==> r == x.value
    ensures r == 0.0 <==> x.NotANumber? || x.value == 0.0
  {
    match x
    case Numeric(v) => v
    case NotANumber => 0.0
  }

  /** `v || default` on an optional text. */
  function OrElse(v: Option<string>, default: string): string {
    if TextGiven(v) then v.value else default
  }

  /** Every text field that gets a non-empty default is filled. */
  predicate Defaulted(r: Review) {
    r.listingName != "" && r.guestName != "" && r.channel != "" && r.reviewType != "" && r.status != ""
  }

  /** The row the reload writes for one provider record, taking `now` for a date that does not parse. */
  function ToStoredReview(raw: RawReview, now: int): (r: Review)
    ensures Defaulted(r) && r.isVisible
    ensures r.hostawayId == raw.id
    ensures TextGiven(raw.listingName) ==> r.listingName == raw.listingName.value
    ensures !TextGiven(raw.listingName) ==> r.listingName == UnknownListing
    ensures TextGiven(raw.guestName) ==> r.guestName == raw.guestName.value
    ensures !TextGiven(raw.guestName) ==> r.guestName == Anonymous
    ensures TextGiven(raw.publicReview) ==> r.content == raw.publicReview.value
    ensures !TextGiven(raw.publicReview) ==> r.content == ""
    ensures TextGiven(raw.channel) ==> r.channel == raw.channel.value
    ensures !TextGiven(raw.channel) ==> r.channel == DirectChannel
    ensures TextGiven(raw.reviewType) ==> r.reviewType == raw.reviewType.value
    ensures !TextGiven(raw.reviewType) ==> r.reviewType == GuestToHost
    ensures TextGiven(raw.status) ==> r.status == raw.status.value
    ensures !TextGiven(raw.status) ==> r.status == Published
    ensures raw.rating.NotANumber? ==> r.rating == 0.0
    ensures raw.rating.Numeric? ==> r.rating == raw.rating.value
    ensures r.date == if raw.submittedAt.valid then raw.submittedAt.ms else now
    ensures raw.reviewCategory.None? ==> r.categories == []
    ensures raw.reviewCategory.Some? ==> r.categories == raw.reviewCategory.value
  {
    Review(
      hostawayId := raw.id,
      listingName := OrElse(raw.listingName, UnknownListing),
      guestName := OrElse(raw.guestName, Anonymous),
      rating := CoerceRating(raw.rating),
      content := OrElse(raw.publicReview, ""),
      channel := OrElse(raw.channel, DirectChannel),
      reviewType := OrElse(raw.reviewType, GuestToHost),
      status := OrElse(raw.status, Published),
      date := if raw.submittedAt.valid then raw.submittedAt.ms else now,
      categories := raw.reviewCategory.GetOr([]),
      isVisible := true)
  }

  /** A stored row read back as the provider record it could have come from. */
  function AsRaw(r: Review): RawReview {
    RawReview(r.hostawayId, Some(r.reviewType), Some(r.status), Numeric(r.rating), Some(r.content),
              Some(r.categories), RawDate(r.date, true), Some(r.guestName), Some(r.listingName), Some(r.channel))
  }

  /** Normalising a stored, defaulted, visible row's own record gives the row back: defaults never overwrite data. */
  lemma StoredRoundTrip(r: Review, now: int)
    requires Defaulted(r) && r.isVisible
    ensures ToStoredReview(AsRaw(r), now) == r
  {
  }

  /** `mapToDomainModel`: keeps every field, coerces `rating`, and defaults `reviewCategory` to []. */
  function MapToDomainModel(raw: RawReview): (d: DomainReview)
    ensures d.rating == CoerceRating(raw.rating)
    ensures d.reviewCategory == raw.reviewCategory.GetOr([])
    ensures FromDomain(d).(rating := raw.rating, reviewCategory := raw.reviewCategory) == raw
  {
    DomainReview(raw.id, raw.reviewType, raw.status, CoerceRating(raw.rating), raw.publicReview,
                 raw.reviewCategory.GetOr([]), raw.submittedAt, raw.guestName, raw.listingName, raw.channel)
  }

  /** A passthrough record as a provider record again. */
  function FromDomain(d: DomainReview): RawReview {
    RawReview(d.id, d.reviewType, d.status, Numeric(d.rating), d.publicReview, Some(d.reviewCategory),
              d.submittedAt, d.guestName, d.listingName, d.channel)
  }

  /** Mapping is idempotent: a second `mapToDomainModel` changes nothing. */
  lemma MapToDomainModelIdempotent(raw: RawReview)
    ensures MapToDomainModel(FromDomain(MapToDomainModel(raw))) == MapToDomainModel(raw)
  {
  }

  /** Storing the passthrough view of a record stores the same row as storing the record itself. */
  lemma StoreAfterMapAgrees(raw: RawReview, now: int)
    ensures ToStoredReview(FromDomain(MapToDomainModel(raw)), now) == ToStoredReview(raw, now)
  {
  }

  // ---------------------------------------------------------------------------
  // Source resolution

  /** How the provider call ended. */
  datatype ProviderResult = Returned(records: seq<RawReview>) | ReturnedNull | Threw

  /** Where a batch came from (the `_source` tag, as a value). */
  datatype Provenance = Live | MockFile | NoSource

  datatype SourcedBatch = SourcedBatch(records: seq<RawReview>, provenance: Provenance)

  /** `getMockData`: the mock dataset, or [] when it cannot be read. */
  function GetMockData(mock: FileRead<RawReview>): (b: SourcedBatch)
    ensures mock.Loaded? ==> b == SourcedBatch(mock.records, MockFile)
    ensures mock.Unreadable? ==> b == SourcedBatch([], NoSource)
  {
    match mock
    case Loaded(records) => SourcedBatch(records, MockFile)
    case Unreadable => SourcedBatch([], NoSource)
  }

  /**
    `fetchRawReviews`: a non-empty provider batch as it is; on a null or empty
    result or a failed call, the mock data. It has no failure outcome.
  */
  function FetchRawReviews(provider: ProviderResult, mock: FileRead<RawReview>): (b: SourcedBatch)
    ensures b.provenance == Live <==> provider.Returned? && provider.records != []
    ensures b.provenance == Live ==> b.records == provider.records
    ensures b.provenance == MockFile ==> mock.Loaded? && b.records == mock.records
    ensures b.provenance == NoSource ==> mock.Unreadable? && b.records == []
  {
    if provider.Returned? && provider.records != [] then SourcedBatch(provider.records, Live)
    else GetMockData(mock)
  }

  /** The resolver comes back empty-handed only when neither the provider nor the mock file has a record. */
  lemma FetchEmptyOnlyWithoutData(provider: ProviderResult, mock: FileRead<RawReview>)
    ensures FetchRawReviews(provider, mock).records == [] <==>
      (!provider.Returned? || provider.records == []) && (mock.Unreadable? || mock.records == [])
  {
  }

  /** The body of the normalised-provider view. The provenance tag does not survive the `map`. */
  datatype NormalizedView = NormalizedView(count: nat, data: seq<DomainReview>)

  /** `getAndNormalizeHostawayReviews`: one mapped record per fetched record, in order. */
  function GetAndNormalizeHostawayReviews(provider: ProviderResult, mock: FileRead<RawReview>): (v: NormalizedView)
    ensures v.count == |v.data| == |FetchRawReviews(provider, mock).records|
    ensures forall i :: 0 <= i < |v.data| ==> v.data[i] == MapToDomainModel(FetchRawReviews(provider, mock).records[i])
  {
    var raw := FetchRawReviews(provider, mock).records;
    var data := seq(|raw|, i requires 0 <= i < |raw| => MapToDomainModel(raw[i]));
    NormalizedView(|data|, data)
  }

  // ---------------------------------------------------------------------------
  // Wipe-and-reload sync

  predicate DistinctIds(records: seq<RawReview>) {
    forall i, j :: 0 <= i < j < |records| ==> records[i].id != records[j].id
  }

  /** Record `k` is the first whose id repeats an earlier record's. */
  predicate FirstRepeat(records: seq<RawReview>, k: int) {
    && 0 <= k < |records|
    && DistinctIds(records[..k])
    && exists j :: 0 <= j < k && records[j].id == records[k].id
  }

  /** The row written for the record at offset `id - base`. */
  function StoredAt(base: int, records: seq<RawReview>, now: int, id: int): Review
    requires base <= id < base + |records|
  {
    ToStoredReview(records[id - base], now)
  }

  /** The rows a reload of `records` writes: record `i` under id `base + i`. */
  function Reloaded(base: int, records: seq<RawReview>, now: int): (m: map<int, Review>)
    ensures forall k :: k in m <==> base <= k < base + |records|
  {
    map id | base <= id < base + |records| :: StoredAt(base, records, now, id)
  }

  /** Record `i` is written, as its stored form, under id `base + i`. */
  lemma ReloadedAt(base: int, records: seq<RawReview>, now: int, i: int)
    requires 0 <= i < |records|
    ensures base + i in Reloaded(base, records, now)
    ensures Reloaded(base, records, now)[base + i] == ToStoredReview(records[i], now)
  {
  }

  lemma ReloadedOneMore(base: int, records: seq<RawReview>, x: RawReview, now: int)
    ensures Reloaded(base, records + [x], now) == Reloaded(base, records, now)[base + |records| := ToStoredReview(x, now)]
  {
    var longer := Reloaded(base, records + [x], now);
    var updated := Reloaded(base, records, now)[base + |records| := ToStoredReview(x, now)];
    assert longer.Keys == updated.Keys;
    forall k | k in longer ensures longer[k] == updated[k] {
      var i := k - base;
      ReloadedAt(base, records + [x], now, i);
      if i < |records| {
        ReloadedAt(base, records, now, i);
        assert (records + [x])[i] == records[i];
      }
    }
  }

  /** A reload writes exactly one row per record, each visible and holding its record's id. */
  lemma {:induction false} ReloadedOneVisibleRowPerRecord(base: int, records: seq<RawReview>, now: int)
    ensures |Reloaded(base, records, now)| == |records|
    ensures forall id :: id in Reloaded(base, records, now) ==>
      Reloaded(base, records, now)[id].isVisible && Reloaded(base, records, now)[id].hostawayId == records[id - base].id
  {
    if records != [] {
      var init := records[..|records| - 1];
      var last := records[|records| - 1];
      ReloadedOneVisibleRowPerRecord(base, init, now);
      assert init + [last] == records;
      ReloadedOneMore(base, init, last, now);
      assert base + |init| !in Reloaded(base, init, now);
      forall id | id in Reloaded(base, records, now)
        ensures Reloaded(base, records, now)[id].isVisible && Reloaded(base, records, now)[id].hostawayId == records[id - base].id
      {
        ReloadedAt(base, records, now, id - base);
      }
    }
  }

  /** The unique index refuses record `count` exactly when it is the first repeated id. */
  lemma ReloadStepFails(base: int, records: seq<RawReview>, count: int, now: int)
    requires 0 <= count < |records| && DistinctIds(records[..count])
    ensures HasHostawayId(Reloaded(base, records[..count], now), records[count].id) <==> FirstRepeat(records, count)
  {
    var rows := Reloaded(base, records[..count], now);
    if HasHostawayId(rows, records[count].id) {
      var id :| id in rows && rows[id].hostawayId == records[count].id;
      var j := id - base;
      ReloadedAt(base, records[..count], now, j);
      assert records[j].id == records[count].id;
    }
    if FirstRepeat(records, count) {
      var j :| 0 <= j < count && records[j].id == records[count].id;
      ReloadedAt(base, records[..count], now, j);
      assert records[..count][j] == records[j];
      assert rows[base + j].hostawayId == records[count].id;
    }
  }

  /** When the index accepts record `count`, the prefix stays duplicate-free and the table grows by its row. */
  lemma ReloadStepSucceeds(base: int, records: seq<RawReview>, count: int, now: int)
    requires 0 <= count < |records| && DistinctIds(records[..count])
    requires !HasHostawayId(Reloaded(base, records[..count], now), records[count].id)
    ensures DistinctIds(records[..count + 1])
    ensures Reloaded(base, records[..count + 1], now) ==
      Reloaded(base, records[..count], now)[base + count := ToStoredReview(records[count], now)]
  {
    var rows := Reloaded(base, records[..count], now);
    forall j | 0 <= j < count ensures records[j].id != records[count].id {
      ReloadedAt(base, records[..count], now, j);
      assert rows[base + j].hostawayId == records[j].id;
    }
    assert records[..count + 1] == records[..count] + [records[count]];
    ReloadedOneMore(base, records[..count], records[count], now);
  }

  /**
    `syncReviews`: deletes every row, then creates one visible row per mock
    record. The delete comes first, so an unreadable file leaves an empty table.
    A repeated id hits the unique index: the call fails and the rows created
    before it stay.
  */
  method SyncReviews(store: Store, mock: FileRead<RawReview>, now: int) returns (r: Result<nat>)
    requires store.Valid()
    modifies store
    ensures store.Valid()
    ensures store.nextId >= old(store.nextId)
    ensures forall id :: id in store.rows ==> id >= old(store.nextId)
    ensures mock.Unreadable? ==> r == Err(MockDataUnreadable) && store.rows == map[] && store.nextId == old(store.nextId)
    ensures mock.Loaded? ==> (r.Ok? <==> DistinctIds(mock.records))
    ensures mock.Loaded? && r.Ok? ==>
      && r.value == |mock.records|
      && store.rows == Reloaded(old(store.nextId), mock.records, now)
      && store.nextId == old(store.nextId) + |mock.records|
    ensures mock.Loaded? && r.Err? ==>
      exists k :: FirstRepeat(mock.records, k) && r.error == UniqueViolation(mock.records[k].id)
                  && store.rows == Reloaded(old(store.nextId), mock.records[..k], now)
                  && store.nextId == old(store.nextId) + k
  {
    store.DeleteMany();
    if mock.Unreadable? {
      return Err(MockDataUnreadable);
    }
    var records := mock.records;
    ghost var base := store.nextId;
    var count := 0;
    assert Reloaded(base, records[..0], now) == map[];
    while count < |records|
      invariant 0 <= count <= |records|
      invariant store.Valid()
      invariant store.nextId == base + count
      invariant store.rows == Reloaded(base, records[..count], now)
      invariant DistinctIds(records[..count])
    {
      var data := ToStoredReview(records[count], now);
      ghost var before := store.rows;
      var created := store.Create(data);
      if created.Err? {
        ReloadStepFails(base, records, count, now);
        return Err(created.error);
      }
      assert store.rows == before[base + count := data];
      ReloadStepSucceeds(base, records, count, now);
      count := count + 1;
    }
    assert records[..count] == records;
    return Ok(count);
  }

  // ---------------------------------------------------------------------------
  // Queries

  /** `String(b)`. */
  function JsString(b: bool): string {
    if b then "true" else "false"
  }

  /** `buildWhereClause`: one constraint per truthy filter field. */
  function BuildWhereClause(f: ReviewFilter): (w: Where)
    ensures forall r :: Satisfies(w, r) <==> MatchesFilter(f, r)
  {
    Where(
      listingContains := if TextGiven(f.listingName) then Some(f.listingName.value) else None,
      ratingAtLeast := if NumberGiven(f.minRating) then Some(f.minRating.value) else None,
      channelEquals := if TextGiven(f.channel) then Some(f.channel.value) else None,
      isVisible := if f.isVisible.Some? then Some(JsString(f.isVisible.value) == "true") else None)
  }

  /** The `orderBy` switch: `rating` when asked for, `date` otherwise; descending unless told. */
  function OrderFor(f: ReviewFilter): (o: OrderBy)
    ensures o.field == Rating <==> f.sortBy == Some(Rating)
    ensures o.dir == f.sortOrder.GetOr(Desc)
  {
    match f.sortBy
    case Some(Rating) => OrderBy(Rating, f.sortOrder.GetOr(Desc))
    case _ => OrderBy(Date, f.sortOrder.GetOr(Desc))
  }

  /** `findAll`: exactly the rows that match the filter, sorted as asked. */
  function FindAll(table: seq<Row>, f: ReviewFilter): (r: seq<Row>)
    ensures forall x :: x in r <==> x in table && MatchesFilter(f, x.review)
    ensures multiset(r) == multiset(Matching(table, f))
    ensures |r| == |Matching(table, f)|
    ensures f.sortBy == Some(Rating) ==> Sorted(OrderBy(Rating, f.sortOrder.GetOr(Desc)), r)
    ensures f.sortBy != Some(Rating) ==> Sorted(OrderBy(Date, f.sortOrder.GetOr(Desc)), r)
  {
    var w := BuildWhereClause(f);
    var o := OrderFor(f);
    SelectIsMatching(table, w, f);
    assert o == OrderBy(if f.sortBy == Some(Rating) then Rating else Date, f.sortOrder.GetOr(Desc));
    var r := FindMany(table, w, o);
    assert forall x :: x in r <==> x in table && MatchesFilter(f, x.review) by {
      forall x ensures x in r <==> x in table && MatchesFilter(f, x.review) {
        assert Satisfies(w, x.review) <==> MatchesFilter(f, x.review);
      }
    }
    r
  }

  datatype PageMeta = PageMeta(total: nat, page: nat, lastPage: nat, limit: nat)
  datatype Paginated = Paginated(data: seq<Row>, meta: PageMeta)

  /** `Number(v) || default` for a page number or a page size. */
  function NumberOr(v: Option<nat>, default: nat): (n: nat)
    ensures v.Some? && v.value != 0 ==> n == v.value
    ensures v.None? || v.value == 0 ==> n == default
    ensures default > 0 ==> n > 0
  {
    if v.Some? && v.value != 0 then v.value else default
  }

  /** `findAllPaginated`: one page of the `findAll` result, with the count and page arithmetic. */
  function FindAllPaginated(table: seq<Row>, f: ReviewFilter): (p: Paginated)
    ensures p.meta.page == if f.page.Some? && f.page.value != 0 then f.page.value else 1
    ensures p.meta.limit == if f.limit.Some? && f.limit.value != 0 then f.limit.value else 10
    ensures p.meta.total == |FindAll(table, f)|
    ensures p.data == Page(FindAll(table, f), p.meta.page, p.meta.limit)
    ensures p.meta.lastPage * p.meta.limit >= p.meta.total
    ensures p.meta.lastPage > 0 ==> (p.meta.lastPage - 1) * p.meta.limit < p.meta.total
  {
    var pageNum := NumberOr(f.page, 1);
    var limitNum := NumberOr(f.limit, 10);
    var all := FindAll(table, f);
    Paginated(Page(all, pageNum, limitNum), PageMeta(|all|, pageNum, CeilDiv(|all|, limitNum), limitNum))
  }

  /** A page has rows exactly when its number is at most `lastPage`. */
  lemma PageHasRowsIffNotPastLastPage(table: seq<Row>, f: ReviewFilter)
    ensures var p := FindAllPaginated(table, f);
      p.data != [] <==> p.meta.page <= p.meta.lastPage
  {
    var p := FindAllPaginated(table, f);
    OffsetInsideIffNotPastLastPage(p.meta.total, p.meta.page, p.meta.limit);
  }

  /** 25 matching rows in pages of 10: page 3 holds the last 5 and `lastPage` is 3; page 4 is empty. */
  lemma PaginationOfTwentyFive(table: seq<Row>, f: ReviewFilter)
    requires |FindAll(table, f)| == 25 && f.limit == Some(10)
    ensures f.page == Some(3) ==> |FindAllPaginated(table, f).data| == 5
    ensures f.page == Some(4) ==> FindAllPaginated(table, f).data == []
    ensures FindAllPaginated(table, f).meta.lastPage == 3
  {
    var p := FindAllPaginated(table, f);
    assert p.meta.lastPage == 3 by {
      var n := p.meta.lastPage;
      assert n * 10 >= 25 && (n > 0 ==> (n - 1) * 10 < 25);
    }
  }

  // ---------------------------------------------------------------------------
  // Visibility and the listing rating

  /** `updateVisibility`: NotFound on an unknown id; otherwise only that row's flag changes. */
  method UpdateVisibility(store: Store, id: int, isVisible: bool) returns (r: Result<Row>)
    requires store.Valid()
    modifies store
    ensures store.Valid()
    ensures id !in old(store.rows) ==> r == Err(NotFound(id)) && store.State() == old(store.State())
    ensures id in old(store.rows) ==>
      && r == Ok(Row(id, old(store.rows)[id].(isVisible := isVisible)))
      && store.State() == SetVisibility(old(store.State()), id, isVisible).value
  {
    var review := store.FindUnique(id);
    if review.None? {
      return Err(NotFound(id));
    }
    r := store.Update(id, isVisible);
  }

  /** The visible rows of one listing, by exact name. */
  function VisibleRowsOf(table: seq<Row>, listingName: string): (r: seq<Row>)
    ensures |r| <= |table|
    ensures forall x :: x in r <==> x in table && x.review.listingName == listingName && x.review.isVisible
    ensures forall x ::
      multiset(r)[x] == if x.review.listingName == listingName && x.review.isVisible then multiset(table)[x] else 0
  {
    if table == [] then []
    else
      assert table == [table[0]] + table[1..];
      var x := table[0];
      (if x.review.listingName == listingName && x.review.isVisible then [x] else []) + VisibleRowsOf(table[1..], listingName)
  }

  function SumRatings(rows: seq<Row>): real {
    if rows == [] then 0.0 else rows[0].review.rating + SumRatings(rows[1..])
  }

  datatype ListingRating = ListingRating(rating: real, count: nat)

  /** `sum / n`: the value that, `n` times over, makes `sum`. */
  function Mean(sum: real, n: nat): (m: real)
    requires n > 0
    ensures m * (n as real) == sum
  {
    sum / (n as real)
  }

  /** `getListingRating`: the mean rating over the listing's visible rows, and how many there are; 0 and 0 when none. */
  function GetListingRating(table: seq<Row>, listingName: string): (r: ListingRating)
    ensures r.count == |VisibleRowsOf(table, listingName)|
    ensures r.count == 0 ==> r.rating == 0.0
    ensures r.count > 0 ==> r.rating == Mean(SumRatings(VisibleRowsOf(table, listingName)), r.count)
  {
    var rows := VisibleRowsOf(table, listingName);
    if |rows| == 0 then ListingRating(0.0, 0)
    else ListingRating(Mean(SumRatings(rows), |rows|), |rows|)
  }

  lemma {:induction false} SumWithinBounds(rows: seq<Row>, lo: real, hi: real)
    requires forall x :: x in rows ==> lo <= x.review.rating <= hi
    ensures lo * (|rows| as real) <= SumRatings(rows) <= hi * (|rows| as real)
  {
    if rows != [] {
      SumWithinBounds(rows[1..], lo, hi);
      assert rows[0] in rows;
      AddWithinBounds(rows[0].review.rating, SumRatings(rows[1..]), |rows|, lo, hi);
    }
  }

  /** One more value within the bounds keeps a total of `n - 1` values within `n` times the bounds. */
  lemma AddWithinBounds(x: real, sum: real, n: nat, lo: real, hi: real)
    requires n >= 1 && lo <= x <= hi
    requires lo * ((n - 1) as real) <= sum <= hi * ((n - 1) as real)
    ensures lo * (n as real) <= x + sum <= hi * (n as real)
  {
    assert lo * (n as real) == lo * ((n - 1) as real) + lo;
    assert hi * (n as real) == hi * ((n - 1) as real) + hi;
  }

  /** A value that, `n` times over, makes a total within `n` times the bounds lies within the bounds. */
  lemma ScaledWithinBounds(m: real, sum: real, n: real, lo: real, hi: real)
    requires n > 0.0 && m * n == sum && lo * n <= sum <= hi * n
    ensures lo <= m <= hi
  {
    assert (m - lo) * n == sum - lo * n;
    assert (hi - m) * n == hi * n - sum;
  }

  /** The mean lies between the least and the greatest rating a visible row of the listing can have. */
  lemma ListingRatingWithinBounds(table: seq<Row>, listingName: string, lo: real, hi: real)
    requires forall x :: x in table ==> lo <= x.review.rating <= hi
    ensures var r := GetListingRating(table, listingName);
      r.count > 0 ==> lo <= r.rating <= hi
  {
    var rows := VisibleRowsOf(table, listingName);
    forall x | x in rows ensures lo <= x.review.rating <= hi {
      assert x in table;
    }
    if rows != [] {
      MeanWithinBounds(rows, lo, hi);
    }
  }

  lemma MeanWithinBounds(rows: seq<Row>, lo: real, hi: real)
    requires rows != []
    requires forall x :: x in rows ==> lo <= x.review.rating <= hi
    ensures lo <= Mean(SumRatings(rows), |rows|) <= hi
  {
    SumWithinBounds(rows, lo, hi);
    MeanOfBoundedSum(SumRatings(rows), |rows|, lo, hi);
  }

  /** A total within `n` times the bounds has its mean within the bounds. */
  lemma MeanOfBoundedSum(sum: real, n: nat, lo: real, hi: real)
    requires n > 0 && lo * (n as real) <= sum <= hi * (n as real)
    ensures lo <= Mean(sum, n) <= hi
  {
    ScaledWithinBounds(Mean(sum, n), sum, n as real, lo, hi);
  }
}
