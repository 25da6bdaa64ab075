/** The `/quotes` endpoints: listing with limit and offset, lookup by id,
    lookup of a randomly drawn id, adding one quote and adding a batch.
    Authorization, rate limiting and HTTP routing are not part of this
    module; the database is the in-memory `QuoteStore`. */
module QuotesRouter {
  import opened PyStr
  import opened Models

  /** The `sort_by` query parameter; accepted but never used. */
  datatype SortBy = Id | Author | Language | CreatedAt

  /** A list response: `{'quotes': ..., 'count': ...}`. */
  datatype QuoteList<T> = QuoteList(quotes: seq<T>, count: int)

  /** Python truthiness of an optional integer: `None` and `0` are false. */
  predicate Truthy(o: Option<int>)
  {
    o.Some? && o.value != 0
  }

  /** The query validation on `limit`: `gt=0, lt=100_000`. */
  predicate ValidLimit(limit: Option<int>)
  {
    limit.None? || 0 < limit.value < 100000
  }

  /** The query validation on `offset`: `gt=-1, lt=10_000_000`. */
  predicate ValidOffset(offset: Option<int>)
  {
    offset.None? || 0 <= offset.value < 10000000
  }

  /** The `Query` defaults: a request without `limit` gets 100, one
      without `offset` gets 0. */
  const DefaultLimit: int := 100
  const DefaultOffset: int := 0

  /** SQL `LIMIT n`: a prefix of the rows, of `n` rows or all of them when
      there are fewer. */
  function Limit(rows: seq<Quote>, n: nat): (r: seq<Quote>)
    ensures r <= rows
    ensures |r| == if n <= |rows| then n else |rows|
  {
    if n <= |rows| then rows[..n] else rows
  }

  /** SQL `OFFSET n`: the rows after the first `n`, in order; none when
      there are at most `n`. */
  function Offset(rows: seq<Quote>, n: nat): (r: seq<Quote>)
    ensures |r| == if n <= |rows| then |rows| - n else 0
    ensures forall k :: 0 <= k < |r| ==> r[k] == rows[n + k]
  {
    if n <= |rows| then rows[n..] else []
  }

  /** How many rows a listing skips: the offset when it is truthy. */
  function Skipped(offset: Option<int>): nat
    requires ValidOffset(offset)
  {
    if Truthy(offset) then offset.value else 0
  }

  /** How many rows a listing of `total` rows returns. */
  function PageSize(total: nat, limit: Option<int>, offset: Option<int>): (n: nat)
    requires ValidLimit(limit) && ValidOffset(offset)
    ensures n <= total
    ensures Truthy(limit) ==> n <= limit.value
  {
    var avail := if Skipped(offset) <= total then total - Skipped(offset) else 0;
    if Truthy(limit) && limit.value < avail then limit.value else avail
  }

  /** `GET /quotes`: the four-way branch on the truthiness of `limit` and
      `offset`. Whatever the branch, the result is the stored rows with the
      first `offset` dropped and then cut to `limit`; `count` is the number
      of rows returned. */
  function GetQuotes(rows: seq<Quote>, limit: Option<int>, offset: Option<int>,
                     sortBy: SortBy, descending: bool): (r: QuoteList<Quote>)
    requires ValidLimit(limit) && ValidOffset(offset)
    ensures r.count == |r.quotes|
    ensures |r.quotes| == PageSize(|rows|, limit, offset)
    ensures forall k :: 0 <= k < |r.quotes| ==> r.quotes[k] == rows[Skipped(offset) + k]
  {
    var quotes :=
      if Truthy(limit) && !Truthy(offset) then Limit(rows, limit.value)
      else if Truthy(offset) && !Truthy(limit) then Offset(rows, offset.value)
      else if Truthy(limit) && Truthy(offset) then Limit(Offset(rows, offset.value), limit.value)
      else rows;
    QuoteList(quotes, |quotes|)
  }

  /** The listing is a contiguous window of the stored rows. */
  lemma {:induction false} GetQuotesIsWindow(rows: seq<Quote>, limit: Option<int>, offset: Option<int>,
                          sortBy: SortBy, descending: bool)
    requires ValidLimit(limit) && ValidOffset(offset)
    ensures Skipped(offset) <= |rows| ==>
              GetQuotes(rows, limit, offset, sortBy, descending).quotes
                == rows[Skipped(offset)..Skipped(offset) + PageSize(|rows|, limit, offset)]
    ensures Skipped(offset) >= |rows| ==> GetQuotes(rows, limit, offset, sortBy, descending).quotes == []
  {
    var r := GetQuotes(rows, limit, offset, sortBy, descending);
    var lo := Skipped(offset);
    var hi := lo + PageSize(|rows|, limit, offset);
    if lo <= |rows| {
      assert r.quotes == rows[lo..hi] by {
        forall k | 0 <= k < |r.quotes| ensures r.quotes[k] == rows[lo..hi][k] { }
      }
    }
  }

  /** A request that gives neither `limit` nor `offset` gets the defaults
      and so lists the first 100 rows, or all of them when there are
      fewer. */
  lemma {:induction false} DefaultRequest(rows: seq<Quote>, sortBy: SortBy, descending: bool)
    ensures var r := GetQuotes(rows, Some(DefaultLimit), Some(DefaultOffset), sortBy, descending);
            && r.quotes == rows[..if |rows| < DefaultLimit then |rows| else DefaultLimit]
            && r.count <= DefaultLimit
  {
    GetQuotesIsWindow(rows, Some(DefaultLimit), Some(DefaultOffset), sortBy, descending);
  }

  /** An offset of `0` is falsy, so it lists exactly what no offset does. */
  lemma {:induction false} ZeroOffsetIsNoOffset(rows: seq<Quote>, limit: Option<int>, sortBy: SortBy, descending: bool)
    requires ValidLimit(limit)
    ensures GetQuotes(rows, limit, Some(0), sortBy, descending) == GetQuotes(rows, limit, None, sortBy, descending)
  {
  }

  /** `sort_by` and `descending` do not affect the listing. */
  lemma {:induction false} SortIgnored(rows: seq<Quote>, limit: Option<int>, offset: Option<int>,
                    s1: SortBy, d1: bool, s2: SortBy, d2: bool)
    requires ValidLimit(limit) && ValidOffset(offset)
    ensures GetQuotes(rows, limit, offset, s1, d1) == GetQuotes(rows, limit, offset, s2, d2)
  {
  }

  /** `GET /quotes/{id}`: the first row whose id is `id`, or nothing. */
  function GetQuoteById(rows: seq<Quote>, id: int): (r: Option<Quote>)
    ensures r.Some? ==> r.value in rows && r.value.id == id
    ensures r.None? <==> forall k :: 0 <= k < |rows| ==> rows[k].id != id
  {
    if rows == [] then None
    else if rows[0].id == id then Some(rows[0])
    else GetQuoteById(rows[1..], id)
  }

  /** In a well-formed table ids are unique, so a row is found by its id. */
  lemma {:induction false} GetQuoteByIdFinds(rows: seq<Quote>, nextId: int, k: nat)
    requires WellFormed(rows, nextId) && k < |rows|
    ensures GetQuoteById(rows, rows[k].id) == Some(rows[k])
  {
    var r := GetQuoteById(rows, rows[k].id);
    var j :| 0 <= j < |rows| && rows[j] == r.value;
    assert rows[j].id == rows[k].id;
  }

  /** Looking up in two stretches of rows: the first stretch wins. */
  lemma {:induction false} GetQuoteByIdAppend(a: seq<Quote>, b: seq<Quote>, id: int)
    ensures GetQuoteById(a + b, id) ==
            if GetQuoteById(a, id).Some? then GetQuoteById(a, id) else GetQuoteById(b, id)
    decreases |a|
  {
    if a == [] {
      assert a + b == b;
    } else {
      assert (a + b)[0] == a[0];
      assert (a + b)[1..] == a[1..] + b;
      GetQuoteByIdAppend(a[1..], b, id);
    }
  }

  /** `GET /quotes/random`: the lookup of an id drawn from [1, 1000]. The
      draw (`random.randint(1, 1000)`) is the parameter `drawn`. */
  function GetRandomQuote(rows: seq<Quote>, drawn: int): (r: Option<Quote>)
    requires 1 <= drawn <= 1000
    ensures r.Some? ==> r.value in rows && r.value.id == drawn
    ensures r.Some? ==> 1 <= r.value.id <= 1000
    ensures r.None? <==> forall k :: 0 <= k < |rows| ==> rows[k].id != drawn
  {
    GetQuoteById(rows, drawn)
  }

  /** In a table whose ids are exactly 1..n, as an import into an empty
      table makes, a draw finds a row exactly when it is at most n. */
  lemma {:induction false} GetRandomQuoteDense(rows: seq<Quote>, drawn: int)
    requires 1 <= drawn <= 1000
    requires forall k :: 0 <= k < |rows| ==> rows[k].id == k + 1
    ensures GetRandomQuote(rows, drawn).Some? <==> drawn <= |rows|
  {
    if drawn <= |rows| {
      assert rows[drawn - 1].id == drawn;
    }
  }

  /** `POST /quotes/add_one`: one new row for the payload, with the next id;
      earlier rows are unchanged. */
  method AddQuote(db: QuoteStore, p: NewQuote) returns (q: Quote)
    requires db.Valid()
    modifies db
    ensures db.Valid()
    ensures q.id == old(db.nextId)
    ensures q.content == p.content && q.author == p.author && q.language == p.language
    ensures db.quotes == old(db.quotes) + [q]
    ensures db.nextId == old(db.nextId) + 1
  {
    q := db.Insert(p);
  }

  /** After adding a row, it is found by its id, and every other lookup
      answers as before. */
  lemma {:induction false} AddThenGet(rows: seq<Quote>, nextId: int, p: NewQuote, id: int)
    requires WellFormed(rows, nextId)
    ensures GetQuoteById(rows + [Stamp(p, nextId)], nextId) == Some(Stamp(p, nextId))
    ensures id != nextId ==> GetQuoteById(rows + [Stamp(p, nextId)], id) == GetQuoteById(rows, id)
  {
    GetQuoteByIdAppend(rows, [Stamp(p, nextId)], nextId);
    GetQuoteByIdAppend(rows, [Stamp(p, nextId)], id);
  }

  /** `POST /quotes/add_batch` as written: one transient row per payload, in
      payload order, and a count of them. The `map(db.add, ...)` and
      `map(db.refresh, ...)` calls build lazy iterators that nothing
      consumes, so no row reaches the table: the method may not modify
      `db`. */
  method AddQuotes(db: QuoteStore, payloads: seq<NewQuote>) returns (r: QuoteList<NewQuote>)
    ensures r.count == |payloads|
    ensures |r.quotes| == |payloads|
    ensures forall k :: 0 <= k < |payloads| ==> r.quotes[k] == payloads[k]
  {
    r := QuoteList(payloads, |payloads|);
  }

  /** A batch of one quote sent to an empty table is reported with count 1
      while the table stays empty. */
  method BatchNotPersisted() returns (reported: int, stored: int)
    ensures reported == 1 && stored == 0
  {
    var db := new QuoteStore();
    var r := AddQuotes(db, [NewQuote("To be or not to be", "Shakespeare", "en")]);
    reported, stored := r.count, |db.quotes|;
  }

  /** `POST /quotes/add_batch` as intended: every payload is added, in
      order, with consecutive fresh ids, and the added rows are returned. */
  method AddQuotesEager(db: QuoteStore, payloads: seq<NewQuote>) returns (r: QuoteList<Quote>)
    requires db.Valid()
    modifies db
    ensures db.Valid()
    ensures db.quotes == old(db.quotes) + Stamped(payloads, old(db.nextId))
    ensures db.nextId == old(db.nextId) + |payloads|
    ensures r.quotes == Stamped(payloads, old(db.nextId)) && r.count == |payloads|
  {
    var added := db.InsertAll(payloads);
    r := QuoteList(added, |added|);
  }

  /** After the intended batch insert every payload is found under the id
      it was given. */
  lemma {:induction false} AddBatchThenGet(rows: seq<Quote>, nextId: int, ps: seq<NewQuote>, k: nat)
    requires WellFormed(rows, nextId) && k < |ps|
    ensures GetQuoteById(rows + Stamped(ps, nextId), nextId + k) == Some(Stamp(ps[k], nextId + k))
  {
    var all := rows + Stamped(ps, nextId);
    StampedWellFormed(rows, nextId, ps);
    StampedAt(ps, nextId);
    GetQuoteByIdFinds(all, nextId + |ps|, |rows| + k);
  }
}
