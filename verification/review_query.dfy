/**
  What the services ask of the store when they read reviews: the request's
  filter parameters, the where-object and order-by object they are turned into,
  what running such a query over the table returns (the matching rows, sorted),
  and the skip/take arithmetic of a page.
*/
module ReviewQuery {
  import opened ReviewModel
  import opened Text

  datatype SortField = Rating | Date
  datatype Direction = Asc | Desc

  /**
    The query parameters after request validation. `page` and `limit` are the
    numeric strings already read as numbers.
  */
  datatype ReviewFilter = ReviewFilter(
    listingName: Option<string>,
    minRating: Option<real>,
    channel: Option<string>,
    sortBy: Option<SortField>,
    sortOrder: Option<Direction>,
    isVisible: Option<bool>,
    page: Option<nat>,
    limit: Option<nat>)

  /** JavaScript truthiness of an optional text: present and non-empty. */
  predicate TextGiven(v: Option<string>) {
    v.Some? && v.value != ""
  }

  /** JavaScript truthiness of an optional number: present and non-zero. */
  predicate NumberGiven(v: Option<real>) {
    v.Some? && v.value != 0.0
  }

  /**
    What the filter asks of one review, as the request means it: every
    parameter that is given constrains the row, and one that is absent or falsy
    (empty text, a zero rating) constrains nothing.
  */
  predicate MatchesFilter(f: ReviewFilter, r: Review) {
    && (TextGiven(f.listingName) ==> ContainsIgnoringCase(r.listingName, f.listingName.value))
    && (NumberGiven(f.minRating) ==> r.rating >= f.minRating.value)
    && (TextGiven(f.channel) ==> EqualsIgnoringCase(r.channel, f.channel.value))
    && (f.isVisible.Some? ==> r.isVisible == f.isVisible.value)
  }

  /** A where-object: each constraint that is present must hold, and they are conjoined. */
  datatype Where = Where(
    listingContains: Option<string>,
    ratingAtLeast: Option<real>,
    channelEquals: Option<string>,
    isVisible: Option<bool>)

  const NoConstraint: Where := Where(None, None, None, None)

  /** The store's reading of a where-object. */
  predicate Satisfies(w: Where, r: Review) {
    && (w.listingContains.Some? ==> ContainsIgnoringCase(r.listingName, w.listingContains.value))
    && (w.ratingAtLeast.Some? ==> r.rating >= w.ratingAtLeast.value)
    && (w.channelEquals.Some? ==> EqualsIgnoringCase(r.channel, w.channelEquals.value))
    && (w.isVisible.Some? ==> r.isVisible == w.isVisible.value)
  }

  /** The rows of `table` that satisfy `w`, in table order. */
  function Select(table: seq<Row>, w: Where): (r: seq<Row>)
    ensures |r| <= |table|
    ensures forall x :: x in r <==> x in table && Satisfies(w, x.review)
    ensures forall x :: multiset(r)[x] == if Satisfies(w, x.review) then multiset(table)[x] else 0
  {
    if table == [] then []
    else
      assert table == [table[0]] + table[1..];
      (if Satisfies(w, table[0].review) then [table[0]] else []) + Select(table[1..], w)
  }

  /** The rows of `table` the filter asks for, in table order: the reference every query is held to. */
  function Matching(table: seq<Row>, f: ReviewFilter): (r: seq<Row>)
    ensures |r| <= |table|
    ensures forall x :: x in r <==> x in table && MatchesFilter(f, x.review)
    ensures forall x :: multiset(r)[x] == if MatchesFilter(f, x.review) then multiset(table)[x] else 0
  {
    if table == [] then []
    else
      assert table == [table[0]] + table[1..];
      (if MatchesFilter(f, table[0].review) then [table[0]] else []) + Matching(table[1..], f)
  }

  /** A where-object that means what the filter means selects exactly the filter's rows. */
  lemma {:induction false} SelectIsMatching(table: seq<Row>, w: Where, f: ReviewFilter)
    requires forall r :: Satisfies(w, r) <==> MatchesFilter(f, r)
    ensures Select(table, w) == Matching(table, f)
  {
    if table != [] {
      SelectIsMatching(table[1..], w, f);
    }
  }

  datatype OrderBy = OrderBy(field: SortField, dir: Direction)

  function Key(field: SortField, r: Review): real {
    match field
    case Rating => r.rating
    case Date => r.date as real
  }

  /** `a` may come before `b` under `o`. */
  predicate InOrder(o: OrderBy, a: Row, b: Row) {
    match o.dir
    case Asc => Key(o.field, a.review) <= Key(o.field, b.review)
    case Desc => Key(o.field, a.review) >= Key(o.field, b.review)
  }

  predicate Sorted(o: OrderBy, s: seq<Row>) {
    forall i, j :: 0 <= i < j < |s| ==> InOrder(o, s[i], s[j])
  }

  /** Puts `x` in front of the first row it may precede. */
  function Insert(o: OrderBy, x: Row, s: seq<Row>): seq<Row> {
    if s == [] || InOrder(o, x, s[0]) then [x] + s
    else [s[0]] + Insert(o, x, s[1..])
  }

  lemma {:induction false} InsertPermutes(o: OrderBy, x: Row, s: seq<Row>)
    ensures multiset(Insert(o, x, s)) == multiset(s) + multiset{x}
  {
    if s != [] && !InOrder(o, x, s[0]) {
      InsertPermutes(o, x, s[1..]);
      assert s == [s[0]] + s[1..];
    }
  }

  /** Every row `s[0]` may precede is one it may precede after `x` goes in among the rest. */
  lemma {:induction false} InsertKeepsFirst(o: OrderBy, x: Row, y: Row, s: seq<Row>)
    requires InOrder(o, y, x)
    requires forall k :: 0 <= k < |s| ==> InOrder(o, y, s[k])
    ensures forall k :: 0 <= k < |Insert(o, x, s)| ==> InOrder(o, y, Insert(o, x, s)[k])
  {
    if s != [] && !InOrder(o, x, s[0]) {
      InsertKeepsFirst(o, x, y, s[1..]);
      var r := Insert(o, x, s);
      forall k | 0 <= k < |r| ensures InOrder(o, y, r[k]) {
        if k > 0 {
          assert r[k] == Insert(o, x, s[1..])[k - 1];
        }
      }
    }
  }

  lemma {:induction false} InsertSorted(o: OrderBy, x: Row, s: seq<Row>)
    requires Sorted(o, s)
    ensures Sorted(o, Insert(o, x, s))
  {
    if s != [] && !InOrder(o, x, s[0]) {
      var rest := Insert(o, x, s[1..]);
      InsertSorted(o, x, s[1..]);
      assert InOrder(o, s[0], x);
      assert forall k :: 0 <= k < |s[1..]| ==> InOrder(o, s[0], s[1..][k]) by {
        forall k | 0 <= k < |s[1..]| ensures InOrder(o, s[0], s[1..][k]) {
          assert s[1..][k] == s[k + 1];
        }
      }
      InsertKeepsFirst(o, x, s[0], s[1..]);
      var r := [s[0]] + rest;
      forall i, j | 0 <= i < j < |r| ensures InOrder(o, r[i], r[j]) {
        if i > 0 {
          assert r[i] == rest[i - 1] && r[j] == rest[j - 1];
        } else {
          assert r[j] == rest[j - 1];
        }
      }
    }
  }

  /** Insertion sort; rows that tie keep their order in `s`. */
  function SortRows(o: OrderBy, s: seq<Row>): (r: seq<Row>)
    ensures Sorted(o, r)
    ensures multiset(r) == multiset(s)
  {
    if s == [] then []
    else
      var rest := SortRows(o, s[1..]);
      InsertSorted(o, s[0], rest);
      InsertPermutes(o, s[0], rest);
      assert s == [s[0]] + s[1..];
      Insert(o, s[0], rest)
  }

  /** `findMany({ where, orderBy })`: the rows satisfying `w`, sorted by `o`. */
  function FindMany(table: seq<Row>, w: Where, o: OrderBy): (r: seq<Row>)
    ensures Sorted(o, r)
    ensures multiset(r) == multiset(Select(table, w))
    ensures forall x :: x in r <==> x in table && Satisfies(w, x.review)
    ensures |r| == |Select(table, w)|
  {
    var r := SortRows(o, Select(table, w));
    assert forall x :: x in r <==> x in Select(table, w) by {
      forall x ensures x in r <==> x in Select(table, w) {
        assert x in r <==> x in multiset(r);
      }
    }
    assert |r| == |multiset(r)|;
    r
  }

  /** `skip`/`take` over a query result. */
  function Slice(s: seq<Row>, skip: nat, take: nat): (r: seq<Row>)
    ensures |r| <= take
    ensures skip >= |s| ==> r == []
    ensures skip < |s| ==> |r| == if take <= |s| - skip then take else |s| - skip
    ensures forall i :: 0 <= i < |r| ==> skip + i < |s| && r[i] == s[skip + i]
  {
    if skip >= |s| then []
    else s[skip..if skip + take <= |s| then skip + take else |s|]
  }

  /** `Math.ceil(total / limit)`: the number of pages of `limit` rows that hold `total` rows. */
  function CeilDiv(total: nat, limit: nat): (n: nat)
    requires limit >= 1
    ensures n * limit >= total
    ensures n > 0 ==> (n - 1) * limit < total
  {
    var q := (total + limit - 1) / limit;
    var rem := (total + limit - 1) % limit;
    assert total + limit - 1 == q * limit + rem;
    assert q * limit - limit == (q - 1) * limit;
    q
  }

  /** The rows skipped before page `page` (counted from 1) of `limit` rows: `(page - 1) * limit`. */
  function Offset(page: nat, limit: nat): (n: nat)
    requires page >= 1
  {
    var before: nat := page - 1;
    assert before * limit >= 0;
    before * limit
  }

  /**
    Page `page` (counted from 1) of `limit` rows: at most `limit` rows of `s`
    starting at `Offset(page, limit)`, in order, and none past the end.
  */
  function Page(s: seq<Row>, page: nat, limit: nat): (r: seq<Row>)
    requires page >= 1
    ensures |r| <= limit
    ensures Offset(page, limit) < |s| ==>
      |r| == if limit <= |s| - Offset(page, limit) then limit else |s| - Offset(page, limit)
    ensures r == [] <==> Offset(page, limit) >= |s| || limit == 0
    ensures forall i :: 0 <= i < |r| ==> Offset(page, limit) + i < |s| && r[i] == s[Offset(page, limit) + i]
  {
    Slice(s, Offset(page, limit), limit)
  }

  /** Multiplying by a natural keeps the order. */
  lemma MulMonotone(a: int, b: int, c: nat)
    requires a <= b
    ensures a * c <= b * c
  {
    assert b * c - a * c == (b - a) * c;
  }

  /** Page `page` starts inside `total` rows exactly when `page` is at most `CeilDiv(total, limit)`. */
  lemma OffsetInsideIffNotPastLastPage(total: nat, page: nat, limit: nat)
    requires page >= 1 && limit >= 1
    ensures Offset(page, limit) < total <==> page <= CeilDiv(total, limit)
  {
    var last := CeilDiv(total, limit);
    assert Offset(page, limit) == (page - 1) * limit;
    if page <= last {
      MulMonotone(page - 1, last - 1, limit);
    } else {
      MulMonotone(last, page - 1, limit);
    }
  }
}
