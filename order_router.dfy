/** The `list` procedure of the orders router: it checks its input, builds a
    conjunctive where-clause from the optional status and search, reads one
    page of the matching orders with skip/take, counts all matching orders
    and derives the number of pages. The store is a sequence of orders in
    the store's own row order, and both reads are run against it. */
module OrderRouter {
  import opened Wrappers
  import opened Orders
  import opened JsString

  /** The input as it arrives, before the schema has checked it. */
  datatype ListRequest = ListRequest(
    page: int,
    limit: int,
    status: Option<string>,
    search: Option<string>)

  /** The input once the schema has accepted it. */
  datatype ListInput = ListInput(
    page: int,
    limit: int,
    status: Option<FulfillmentStatus>,
    search: Option<string>)

  /** One schema violation, reported per field. */
  datatype Issue = PageTooSmall | LimitTooSmall | InvalidStatus(received: string)

  /** The reply: one page of orders and the pagination totals. */
  datatype ListResponse = ListResponse(orders: seq<Order>, totalOrders: int, totalPages: int)

  /** The status field is absent or names one of the five statuses. */
  predicate StatusAccepted(status: Option<string>)
  {
    status.None? || ParseStatus(status.value).Some?
  }

  /** The input schema: `page` and `limit` at least 1, `status` absent or a
      status name, `search` any string or absent. Every violated field is
      reported, in the order the schema lists the fields. */
  function ParseInput(req: ListRequest): (r: Result<ListInput, seq<Issue>>)
    ensures r.Success? <==> req.page >= 1 && req.limit >= 1 && StatusAccepted(req.status)
    ensures r.Success? ==>
      && r.value.page == req.page && r.value.limit == req.limit
      && r.value.search == req.search
      && (r.value.status.None? <==> req.status.None?)
      && (r.value.status.Some? ==> StatusName(r.value.status.value) == req.status.value)
    ensures r.Failure? ==>
      && (PageTooSmall in r.error <==> req.page < 1)
      && (LimitTooSmall in r.error <==> req.limit < 1)
      && (forall x :: InvalidStatus(x) in r.error <==> req.status == Some(x) && ParseStatus(x).None?)
  {
    var issues :=
      (if req.page < 1 then [PageTooSmall] else [])
      + (if req.limit < 1 then [LimitTooSmall] else [])
      + (if !StatusAccepted(req.status) then [InvalidStatus(req.status.value)] else []);
    if issues != [] then Failure(issues)
    else
      var status := if req.status.Some? then ParseStatus(req.status.value) else None;
      Success(ListInput(req.page, req.limit, status, req.search))
  }

  /** The where-object handed to the store: a status to equal and a
      substring the customer name must contain, ignoring case. An absent
      field constrains nothing. */
  datatype WhereClause = WhereClause(
    fulfillmentStatus: Option<FulfillmentStatus>,
    customerNameContains: Option<string>)

  /** The search takes part in the filter only when it is present, not
      empty, and not empty once trimmed. */
  predicate SearchIsActive(search: Option<string>)
    ensures SearchIsActive(search) <==> search.Some? && !IsBlank(search.value)
  {
    if search.None? then false
    else
      TrimEmptyIffBlank(search.value);
      search.value != "" && Trim(search.value) != ""
  }

  /** Starts from the empty where-object and adds the status field and the
      customer-name field, each only when its input calls for it. The search
      is stored as given, untrimmed. */
  function BuildWhere(status: Option<FulfillmentStatus>, search: Option<string>): (w: WhereClause)
    ensures w.fulfillmentStatus == status
    ensures w.customerNameContains.Some? <==> search.Some? && !IsBlank(search.value)
    ensures w.customerNameContains.Some? ==> w.customerNameContains == search
  {
    var w := WhereClause(None, None);
    var w := if status.Some? then w.(fulfillmentStatus := status) else w;
    var w := if SearchIsActive(search) then w.(customerNameContains := search) else w;
    w
  }

  /** An order satisfies every field present in the where-object: it has
      the status asked for, and the lower-cased search occurs somewhere in its
      lower-cased customer name. */
  predicate Matches(w: WhereClause, o: Order)
    ensures Matches(w, o) <==>
      && (w.fulfillmentStatus.None? || o.fulfillmentStatus == w.fulfillmentStatus.value)
      && (w.customerNameContains.None?
          || exists i :: OccursAt(ToLowerCase(o.customer.name), ToLowerCase(w.customerNameContains.value), i))
  {
    && (w.fulfillmentStatus.None? || o.fulfillmentStatus == w.fulfillmentStatus.value)
    && (w.customerNameContains.None?
        || ContainsIgnoringCase(o.customer.name, w.customerNameContains.value))
  }

  /** The orders of the store that satisfy `w`, in store order. */
  function FindWhere(db: seq<Order>, w: WhereClause): (r: seq<Order>)
    ensures |r| <= |db|
    ensures forall i :: 0 <= i < |r| ==> Matches(w, r[i])
    ensures forall o :: o in r <==> o in db && Matches(w, o)
  {
    if db == [] then []
    else (if Matches(w, db[0]) then [db[0]] else []) + FindWhere(db[1..], w)
  }

  function Min(a: int, b: int): int { if a <= b then a else b }

  /** `skip`/`take`: up to `take` elements starting at index `skip`. */
  function Paginate<T>(s: seq<T>, skip: nat, take: nat): (r: seq<T>)
    ensures |r| <= take
    ensures skip >= |s| ==> r == []
    ensures skip < |s| ==> |r| == Min(take, |s| - skip)
    ensures forall i :: 0 <= i < |r| ==> r[i] == s[skip + i]
  {
    if skip >= |s| then [] else s[skip..Min(skip + take, |s|)]
  }

  /** The number of matching orders that come before page `page`. */
  function Offset(page: int, limit: int): (skip: nat)
    requires page >= 1 && limit >= 1
    ensures skip == 0 <==> page == 1
    ensures skip + limit == page * limit
  {
    (page - 1) * limit
  }

  /** `Math.ceil(n / d)` for a count `n` and a positive divisor `d`: the
      pages of `d` that `n` orders fill, counted one page at a time. */
  function CeilDiv(n: nat, d: nat): (pages: nat)
    requires d >= 1
    ensures pages == 0 <==> n == 0
    ensures pages <= n
  {
    if n == 0 then 0 else if n <= d then 1 else 1 + CeilDiv(n - d, d)
  }

  /** The page count is zero exactly for zero orders, and otherwise the
      smallest number of pages of `d` that holds all `n` orders. */
  lemma {:induction false} CeilDivBounds(n: nat, d: nat)
    requires d >= 1
    ensures CeilDiv(n, d) == 0 <==> n == 0
    ensures CeilDiv(n, d) > 0 ==> (CeilDiv(n, d) - 1) * d < n <= CeilDiv(n, d) * d
  {
    if n > d {
      var p := CeilDiv(n - d, d);
      CeilDivBounds(n - d, d);
      assert CeilDiv(n, d) == p + 1;
      assert (p + 1) * d == p * d + d;
      assert (p - 1) * d == p * d - d;
    }
  }

  /** Runs the validated query against the store: the page of matching
      orders read with skip/take, the count of all matching orders, and the
      page count. */
  function List(req: ListRequest, db: seq<Order>): (r: Result<ListResponse, seq<Issue>>)
    ensures r.Failure? <==> ParseInput(req).Failure?
    ensures r.Failure? ==> r.error == ParseInput(req).error
    ensures r.Success? ==>
      && |r.value.orders| <= req.limit
      && 0 <= r.value.totalOrders <= |db|
      && (forall o :: o in r.value.orders ==> o in db)
  {
    match ParseInput(req)
    case Failure(issues) => Failure(issues)
    case Success(input) =>
      var where := BuildWhere(input.status, input.search);
      var matching := FindWhere(db, where);
      var orders := Paginate(matching, Offset(input.page, input.limit), input.limit);
      var totalOrders := |matching|;
      Success(ListResponse(orders, totalOrders, CeilDiv(totalOrders, input.limit)))
  }

  /** The where-object a valid request is answered with. */
  function WhereOf(req: ListRequest): WhereClause
    requires ParseInput(req).Success?
  {
    var input := ParseInput(req).value;
    BuildWhere(input.status, input.search)
  }

  // ---------------------------------------------------------------------
  // The filter

  /** What the where-object demands of one order: the status when one is
      given, and the untrimmed search inside the customer name, ignoring
      case, when the search is not blank. */
  lemma MatchesBuildWhere(status: Option<FulfillmentStatus>, search: Option<string>, o: Order)
    ensures Matches(BuildWhere(status, search), o) <==>
      && (status.None? || o.fulfillmentStatus == status.value)
      && (search.None? || IsBlank(search.value) || ContainsIgnoringCase(o.customer.name, search.value))
  {
  }

  /** A missing, empty or all-white-space search adds no constraint. */
  lemma BlankSearchIgnored(status: Option<FulfillmentStatus>, search: Option<string>)
    requires search.None? || IsBlank(search.value)
    ensures BuildWhere(status, search) == BuildWhere(status, None)
  {
  }

  /** With a non-blank search, an order matches exactly when the search, as
      given and with any surrounding white space, occurs in the lower-cased
      customer name once it is lower-cased too. */
  lemma SearchMatchesOccurrence(search: string, o: Order)
    requires !IsBlank(search)
    ensures Matches(BuildWhere(None, Some(search)), o) <==>
      exists i :: OccursAt(ToLowerCase(o.customer.name), ToLowerCase(search), i)
  {
    MatchesBuildWhere(None, Some(search), o);
    ContainsIffOccurs(ToLowerCase(o.customer.name), ToLowerCase(search));
  }

  /** "ann" occurs in "joanne", from index 2. */
  lemma AnnInJoanne()
    ensures Contains("joanne", "ann")
  {
  }

  /** " ann" does not occur in "joanne": the one letter before "ann" is
      no space. */
  lemma SpacedAnnNotInJoanne()
    ensures !Contains("joanne", " ann")
  {
    var t := "joanne";
    ContainsIffOccurs(t, " ann");
    forall i | 0 <= i <= 2 ensures !OccursAt(t, " ann", i) {
      assert t[i..i + 4][0] == t[i];
    }
  }

  /** The search is not trimmed before matching: " ann" does not find
      "Joanne", while "ANN" does. */
  lemma SearchNotTrimmed(o: Order)
    requires o.customer.name == "Joanne"
    ensures Matches(BuildWhere(None, Some("ANN")), o)
    ensures !Matches(BuildWhere(None, Some(" ann")), o)
  {
    assert ToLowerCase("Joanne") == "joanne";
    assert ToLowerCase("ANN") == "ann";
    assert ToLowerCase(" ann") == " ann";
    assert !IsBlank("ANN") by { assert !IsWhiteSpace("ANN"[0]); }
    assert !IsBlank(" ann") by { assert !IsWhiteSpace(" ann"[1]); }
    MatchesBuildWhere(None, Some("ANN"), o);
    MatchesBuildWhere(None, Some(" ann"), o);
    AnnInJoanne();
    SpacedAnnNotInJoanne();
  }

  /** Filtering keeps the store order: it distributes over concatenation. */
  lemma {:induction false} FindWhereAppend(a: seq<Order>, b: seq<Order>, w: WhereClause)
    ensures FindWhere(a + b, w) == FindWhere(a, w) + FindWhere(b, w)
  {
    if a == [] {
      assert a + b == b;
    } else {
      assert (a + b)[1..] == a[1..] + b;
      FindWhereAppend(a[1..], b, w);
    }
  }

  /** An order sequence every element of which matches is returned whole. */
  lemma {:induction false} FindWhereKeepsMatching(db: seq<Order>, w: WhereClause)
    requires forall i :: 0 <= i < |db| ==> Matches(w, db[i])
    ensures FindWhere(db, w) == db
  {
    if db != [] {
      FindWhereKeepsMatching(db[1..], w);
    }
  }

  /** Status and search sit in one where-object, so the result is the status
      matches filtered again by the search: the intersection. */
  lemma {:induction false} FilterIsIntersection(
    db: seq<Order>, status: Option<FulfillmentStatus>, search: Option<string>)
    ensures FindWhere(db, BuildWhere(status, search))
         == FindWhere(FindWhere(db, BuildWhere(status, None)), BuildWhere(None, search))
  {
    if db != [] {
      FilterIsIntersection(db[1..], status, search);
      MatchesBuildWhere(status, search, db[0]);
      MatchesBuildWhere(status, None, db[0]);
      MatchesBuildWhere(None, search, db[0]);
      var head := if Matches(BuildWhere(status, None), db[0]) then [db[0]] else [];
      FindWhereAppend(head, FindWhere(db[1..], BuildWhere(status, None)), BuildWhere(None, search));
    }
  }

  // ---------------------------------------------------------------------
  // The list procedure

  /** Rejected input is answered from the input alone: the store is not
      read. */
  lemma RejectedInputReadsNothing(req: ListRequest, db1: seq<Order>, db2: seq<Order>)
    requires ParseInput(req).Failure?
    ensures List(req, db1) == List(req, db2)
  {
  }

  /** With a status, every listed order has it. */
  lemma ListedOrdersHaveStatus(req: ListRequest, db: seq<Order>)
    requires List(req, db).Success? && req.status.Some?
    ensures forall o :: o in List(req, db).value.orders ==>
      StatusName(o.fulfillmentStatus) == req.status.value
  {
  }

  /** Without a status and with a blank search nothing is filtered: the
      total is the store size and the page is read from the store itself. */
  lemma ListUnfiltered(req: ListRequest, db: seq<Order>)
    requires List(req, db).Success? && req.status.None?
    requires req.search.None? || IsBlank(req.search.value)
    ensures List(req, db).value.totalOrders == |db|
    ensures List(req, db).value.orders == Paginate(db, Offset(req.page, req.limit), req.limit)
  {
    var input := ParseInput(req).value;
    BlankSearchIgnored(None, input.search);
    forall i | 0 <= i < |db| ensures Matches(BuildWhere(None, None), db[i]) {
      MatchesBuildWhere(None, None, db[i]);
    }
    FindWhereKeepsMatching(db, BuildWhere(None, None));
  }

  /** The page is the matching orders read with skip `(page-1)*limit` and
      take `limit` (so at most `limit` of them, from that index on), and the
      totals count all matching orders. */
  lemma ListIsPageOfMatches(req: ListRequest, db: seq<Order>)
    requires ParseInput(req).Success?
    ensures List(req, db).Success?
    ensures var matching := FindWhere(db, WhereOf(req));
      && List(req, db).value.orders == Paginate(matching, Offset(req.page, req.limit), req.limit)
      && List(req, db).value.totalOrders == |matching|
      && List(req, db).value.totalPages == CeilDiv(|matching|, req.limit)
  {
  }

  /** Two valid requests with the same filter report the same totals,
      whatever their page. */
  lemma TotalIgnoresPage(req1: ListRequest, req2: ListRequest, db: seq<Order>)
    requires ParseInput(req1).Success? && ParseInput(req2).Success?
    requires req1.status == req2.status && req1.search == req2.search
    ensures List(req1, db).value.totalOrders == List(req2, db).value.totalOrders
    ensures req1.limit == req2.limit ==>
      List(req1, db).value.totalPages == List(req2, db).value.totalPages
  {
  }

  /** The page count is zero exactly when nothing matches, and otherwise
      `limit`-sized pages just hold all matching orders. */
  lemma TotalPagesIsCeiling(req: ListRequest, db: seq<Order>)
    requires List(req, db).Success?
    ensures var r := List(req, db).value;
      && (r.totalPages == 0 <==> r.totalOrders == 0)
      && (r.totalPages > 0 ==>
            (r.totalPages - 1) * req.limit < r.totalOrders <= r.totalPages * req.limit)
  {
    CeilDivBounds(List(req, db).value.totalOrders, req.limit);
  }

  /** Page `page` starts at or past the end of `n` matching orders exactly
      when it comes after the last page. */
  lemma OffsetPastEndIffPastLast(page: int, limit: int, n: nat)
    requires page >= 1 && limit >= 1
    ensures Offset(page, limit) >= n <==> page > CeilDiv(n, limit)
  {
    var tp := CeilDiv(n, limit);
    var off := Offset(page, limit);
    CeilDivBounds(n, limit);
    assert n <= tp * limit;
    if page > tp {
      var k := page - 1 - tp;
      assert k >= 0;
      assert off == tp * limit + k * limit;
      assert k * limit >= 0;
    } else {
      var k := tp - page;
      assert k >= 0;
      assert (tp - 1) * limit == off + k * limit;
      assert k * limit >= 0;
    }
  }

  /** A page comes back empty exactly when it lies past the last page; no
      error is raised for it. */
  lemma EmptyPageIffPastLast(req: ListRequest, db: seq<Order>)
    requires List(req, db).Success?
    ensures List(req, db).value.orders == [] <==> req.page > List(req, db).value.totalPages
  {
    ListIsPageOfMatches(req, db);
    OffsetPastEndIffPastLast(req.page, req.limit, |FindWhere(db, WhereOf(req))|);
  }

  /** An empty store answers every valid request with no orders and no pages. */
  lemma EmptyStoreListsNothing(req: ListRequest)
    requires ParseInput(req).Success?
    ensures List(req, []) == Success(ListResponse([], 0, 0))
  {
  }

  /** Twelve pending orders and pages of ten: the first page holds ten, the
      second two, and both report twelve orders over two pages. */
  lemma TwelvePendingOrders(db: seq<Order>, search: Option<string>)
    requires |FindWhere(db, BuildWhere(Some(Pending), None))| == 12
    requires search.None? || IsBlank(search.value)
    ensures List(ListRequest(1, 10, Some("PENDING"), search), db)
         == Success(ListResponse(Paginate(FindWhere(db, BuildWhere(Some(Pending), None)), 0, 10), 12, 2))
    ensures |List(ListRequest(1, 10, Some("PENDING"), search), db).value.orders| == 10
    ensures List(ListRequest(2, 10, Some("PENDING"), search), db)
         == Success(ListResponse(Paginate(FindWhere(db, BuildWhere(Some(Pending), None)), 10, 10), 12, 2))
    ensures |List(ListRequest(2, 10, Some("PENDING"), search), db).value.orders| == 2
  {
  }

  // ---------------------------------------------------------------------
  // Pages taken together

  /** Pages 1 to `n` of `s`, one after the other. */
  function PagesUpTo<T>(s: seq<T>, limit: nat, n: nat): seq<T>
    requires limit >= 1
  {
    if n == 0 then [] else PagesUpTo(s, limit, n - 1) + Paginate(s, Offset(n, limit), limit)
  }

  /** Page `n` ends where page `n + 1` starts. */
  lemma NextPageStart(n: nat, limit: nat)
    requires n >= 1
    ensures (n - 1) * limit >= 0 && n * limit == (n - 1) * limit + limit
  {
  }

  /** The first `n` pages are the first `n * limit` elements. */
  lemma {:induction false} PagesUpToIsPrefix<T>(s: seq<T>, limit: nat, n: nat)
    requires limit >= 1
    ensures PagesUpTo(s, limit, n) == s[..Min(n * limit, |s|)]
  {
    if n > 0 {
      var skip := Offset(n, limit);
      var lo, hi := Min(skip, |s|), Min(skip + limit, |s|);
      assert hi == Min(n * limit, |s|) by {
        NextPageStart(n, limit);
      }
      assert PagesUpTo(s, limit, n - 1) == s[..lo] by {
        NextPageStart(n, limit);
        PagesUpToIsPrefix(s, limit, n - 1);
      }
      assert Paginate(s, skip, limit) == s[lo..hi];
      assert s[..hi] == s[..lo] + s[lo..hi];
    }
  }

  /** Reading pages 1 to `totalPages` in turn yields every matching order
      once, in store order. */
  lemma PagesCoverAllMatches(req: ListRequest, db: seq<Order>)
    requires ParseInput(req).Success?
    ensures var matching := FindWhere(db, WhereOf(req));
      PagesUpTo(matching, req.limit, List(req, db).value.totalPages) == matching
  {
    var matching := FindWhere(db, WhereOf(req));
    var tp := CeilDiv(|matching|, req.limit);
    PagesUpToIsPrefix(matching, req.limit, tp);
    CeilDivBounds(|matching|, req.limit);
  }
}
