/** The orders table page: the cell helpers that turn an order into what its
    row shows, the pagination buttons, and the page / filter / search state
    of the table together with the event handlers that change it. */
module OrdersTable {
  import opened Wrappers
  import opened Orders
  import opened JsString
  import opened OrderRouter

  /** The page size the table always asks for. */
  const Limit: int := 10

  /** The colour class shown for a status string the colour map lacks. */
  const GreyFallback: string := "bg-gray-400"

  // ---------------------------------------------------------------------
  // Cell helpers

  /** The colour map: one background class per status, none of them the
      grey fallback. */
  function StatusColorClass(s: FulfillmentStatus): (cls: string)
    ensures |cls| > 3 && cls[..3] == "bg-"
    ensures cls != GreyFallback
  {
    match s
    case Pending => "bg-yellow-500"
    case Fulfilled => "bg-green-500"
    case Cancelled => "bg-red-500"
    case Shipped => "bg-blue-500"
    case Returned => "bg-fuchsia-400"
  }

  /** Looks a status string up in the colour map: a status name gets its
      status's class, every other string the grey fallback. */
  function StatusColor(status: string): (cls: string)
    ensures ParseStatus(status).Some? ==> cls == StatusColorClass(ParseStatus(status).value)
    ensures cls == GreyFallback <==> ParseStatus(status).None?
  {
    match ParseStatus(status)
    case Some(s) => StatusColorClass(s)
    case None => GreyFallback
  }

  /** The five statuses are told apart by colour, and none shows grey. */
  lemma StatusColorsDistinct(a: FulfillmentStatus, b: FulfillmentStatus)
    ensures StatusColor(StatusName(a)) == StatusColor(StatusName(b)) <==> a == b
    ensures StatusColor(StatusName(a)) != GreyFallback
  {
  }

  /** Upper-casing then lower-casing a character is lower-casing it. */
  lemma LowerOfUpper(c: char)
    ensures ToLowerChar(ToUpperChar(c)) == ToLowerChar(c)
  {
  }

  /** The status as displayed: first character upper-cased, the rest
      lower-cased. It spells the same letters as the input, ignoring case,
      with a capital (or no letter) first and no capital after. */
  function DisplayStatus(status: string): (r: string)
    ensures |r| == |status|
    ensures ToLowerCase(r) == ToLowerCase(status)
    ensures |r| > 0 ==> !IsAsciiLower(r[0])
    ensures forall i :: 1 <= i < |r| ==> !IsAsciiUpper(r[i])
  {
    if status == [] then []
    else
      var r := [ToUpperChar(status[0])] + ToLowerCase(status[1..]);
      LowerOfUpper(status[0]);
      assert ToLowerCase(r)[0] == ToLowerCase(status)[0];
      r
  }

  /** Displaying an already displayed status changes nothing. */
  lemma DisplayStatusIdempotent(status: string)
    ensures DisplayStatus(DisplayStatus(status)) == DisplayStatus(status)
  {
  }

  /** The label of each status in the filter menu. */
  function FilterLabel(s: FulfillmentStatus): string
  {
    match s
    case Pending => "Pending"
    case Fulfilled => "Fulfilled"
    case Cancelled => "Cancelled"
    case Shipped => "Shipped"
    case Returned => "Returned"
  }

  /** Displaying a status upper-cases its first character and lower-cases
      the rest. */
  lemma DisplayStatusSplit(c: char, rest: string)
    ensures DisplayStatus([c] + rest) == [ToUpperChar(c)] + ToLowerCase(rest)
  {
    assert ([c] + rest)[1..] == rest;
  }

  /** An upper-case status word is displayed as its first letter followed
      by the rest in lower case. */
  lemma DisplayWord(word: string, shown: string)
    requires |word| > 0 && |shown| == |word| && shown[0] == word[0] && IsAsciiUpper(word[0])
    requires forall i :: 1 <= i < |word| ==> shown[i] == ToLowerChar(word[i])
    ensures DisplayStatus(word) == shown
  {
    DisplayStatusSplit(word[0], word[1..]);
    assert [word[0]] + word[1..] == word;
  }

  /** A stored status is displayed exactly as the filter menu labels it. */
  lemma DisplayStatusIsFilterLabel(s: FulfillmentStatus)
    ensures DisplayStatus(StatusName(s)) == FilterLabel(s)
  {
    DisplayWord(StatusName(s), FilterLabel(s));
  }

  /** The products cell: the product name of each line item, in line-item
      order. */
  function ProductNames(items: seq<OrderLineItem>): (names: seq<string>)
    ensures |names| == |items|
    ensures forall i :: 0 <= i < |items| ==> names[i] == items[i].product.name
  {
    if items == [] then [] else [items[0].product.name] + ProductNames(items[1..])
  }

  /** What one row of the table shows. */
  datatype Row = Row(
    customerName: string,
    address: string,
    statusText: string,
    statusColor: string,
    products: seq<string>)

  /** The row of an order: the customer's name and address, the status
      under its menu label in a colour of its own (never grey), and the
      product names of the line items. */
  function RenderRow(o: Order): (row: Row)
    ensures row.customerName == o.customer.name && row.address == o.customer.address
    ensures row.products == ProductNames(o.orderLineItems)
    ensures row.statusText == FilterLabel(o.fulfillmentStatus)
    ensures row.statusColor == StatusColorClass(o.fulfillmentStatus) != GreyFallback
    ensures |row.products| == |o.orderLineItems|
  {
    var status := StatusName(o.fulfillmentStatus);
    DisplayStatusIsFilterLabel(o.fulfillmentStatus);
    ParseStatusName(o.fulfillmentStatus);
    Row(o.customer.name, o.customer.address, DisplayStatus(status), StatusColor(status),
        ProductNames(o.orderLineItems))
  }

  // ---------------------------------------------------------------------
  // Pagination buttons

  /** Previous is disabled on page 1 and enabled everywhere else. */
  predicate PreviousEnabled(page: int)
    ensures page > 1 ==> PreviousEnabled(page)
    ensures page == 1 ==> !PreviousEnabled(page)
  {
    page != 1
  }

  /** Next is disabled only when the page equals the page count of the last
      response: it is enabled before any response, on every page before the
      last, and again on every page past the last (page 1 of 0 pages too). */
  predicate NextEnabled(page: int, totalPages: Option<int>)
    ensures totalPages.None? ==> NextEnabled(page, totalPages)
    ensures totalPages.Some? && page < totalPages.value ==> NextEnabled(page, totalPages)
    ensures totalPages.Some? && page == totalPages.value ==> !NextEnabled(page, totalPages)
    ensures totalPages.Some? && page > totalPages.value ==> NextEnabled(page, totalPages)
  {
    totalPages != Some(page)
  }

  /** The page after a click on Previous. */
  function AfterPrevious(page: int): (r: int)
    ensures page >= 1 ==> r >= 1
    ensures r == page - 1 <==> PreviousEnabled(page)
    ensures r == page <==> !PreviousEnabled(page)
  {
    if PreviousEnabled(page) then page - 1 else page
  }

  /** The page after a click on Next. On a page within the page count it
      stays within it; with a page count of zero it goes past it. */
  function AfterNext(page: int, totalPages: Option<int>): (r: int)
    ensures r == page + 1 <==> NextEnabled(page, totalPages)
    ensures r == page <==> !NextEnabled(page, totalPages)
    ensures totalPages.Some? && page <= totalPages.value ==> r <= totalPages.value
    ensures totalPages.Some? && page > totalPages.value ==> r > totalPages.value
  {
    if NextEnabled(page, totalPages) then page + 1 else page
  }

  datatype PagerClick = PreviousClick | NextClick

  /** The page after a series of clicks on the pagination buttons while the
      page count stays the same. */
  function AfterClicks(page: int, totalPages: Option<int>, clicks: seq<PagerClick>): int
    decreases |clicks|
  {
    if clicks == [] then page
    else
      var next := match clicks[0]
        case PreviousClick => AfterPrevious(page)
        case NextClick => AfterNext(page, totalPages);
      AfterClicks(next, totalPages, clicks[1..])
  }

  /** No series of clicks leaves page 1 behind downwards. */
  lemma {:induction false} ClicksKeepPagePositive(page: int, totalPages: Option<int>, clicks: seq<PagerClick>)
    requires page >= 1
    ensures AfterClicks(page, totalPages, clicks) >= 1
    decreases |clicks|
  {
    if clicks != [] {
      var next := match clicks[0]
        case PreviousClick => AfterPrevious(page)
        case NextClick => AfterNext(page, totalPages);
      ClicksKeepPagePositive(next, totalPages, clicks[1..]);
    }
  }

  /** With at least one page and a page within range, every series of
      clicks keeps the page within `1..totalPages`. */
  lemma {:induction false} ClicksKeepPageInRange(page: int, totalPages: int, clicks: seq<PagerClick>)
    requires 1 <= page <= totalPages
    ensures 1 <= AfterClicks(page, Some(totalPages), clicks) <= totalPages
    decreases |clicks|
  {
    if clicks != [] {
      var next := match clicks[0]
        case PreviousClick => AfterPrevious(page)
        case NextClick => AfterNext(page, Some(totalPages));
      ClicksKeepPageInRange(next, totalPages, clicks[1..]);
    }
  }

  /** Past the last page (as on page 1 of a result with no pages), Next is
      never disabled: `k` clicks on it move `k` pages further. */
  lemma {:induction false} NextNeverStopsPastLastPage(page: int, totalPages: int, clicks: seq<PagerClick>)
    requires page > totalPages
    requires forall i :: 0 <= i < |clicks| ==> clicks[i] == NextClick
    ensures AfterClicks(page, Some(totalPages), clicks) == page + |clicks|
    decreases |clicks|
  {
    if clicks != [] {
      NextNeverStopsPastLastPage(page + 1, totalPages, clicks[1..]);
    }
  }

  /** On a search without matches Next is enabled on page 1, and the page it
      leads to lists nothing. */
  lemma NextOnEmptyResultListsNothing(req: ListRequest, db: seq<Order>)
    requires List(req, db).Success? && List(req, db).value.totalPages == 0
    ensures NextEnabled(req.page, Some(0))
    ensures var next := req.(page := AfterNext(req.page, Some(0)));
      List(next, db).Success? && List(next, db).value.orders == []
  {
    var next := req.(page := AfterNext(req.page, Some(0)));
    ListIsPageOfMatches(req, db);
    ListIsPageOfMatches(next, db);
    EmptyPageIffPastLast(next, db);
  }

  // ---------------------------------------------------------------------
  // Table state

  /** The state the table keeps: the page, the raw and the committed search,
      the status filter, whether a debounced search commit is scheduled, and
      the page count of the last response (none before the first). */
  class TableState {
    var page: int
    var search: string
    var debouncedSearch: string
    var filterStatus: Option<string>
    var searchPending: bool
    var totalPages: Option<int>

    /** The page never drops below 1. */
    ghost predicate Valid()
      reads this
    {
      page >= 1
    }

    /** The filter holds no status or one of the five status names, as
        every entry of the filter menu does. */
    predicate FilterOffered()
      reads this
    {
      StatusAccepted(filterStatus)
    }

    /** The state on mount: page 1, empty searches, no filter, no response
        yet, and the mount-time run of the search effect already scheduling
        a commit of the empty search. */
    constructor ()
      ensures Valid() && FilterOffered()
      ensures page == 1 && search == "" && debouncedSearch == ""
      ensures filterStatus == None && totalPages == None
      ensures searchPending
    {
      page := 1;
      search := "";
      debouncedSearch := "";
      filterStatus := None;
      searchPending := true;
      totalPages := None;
    }

    /** The request the table sends for its current state: fixed limit,
        current page, filter and committed search. A table whose invariant
        holds and whose filter came from the menu never sends a request the
        input schema rejects. */
    function Request(): (req: ListRequest)
      reads this
      ensures req.page == page && req.limit == Limit
      ensures req.status == filterStatus && req.search == Some(debouncedSearch)
      ensures Valid() && FilterOffered() ==> ParseInput(req).Success?
    {
      ListRequest(page, Limit, filterStatus, Some(debouncedSearch))
    }

    /** Previous: one page back, unless on page 1. */
    method ClickPrevious()
      requires Valid()
      modifies this`page
      ensures Valid()
      ensures page == AfterPrevious(old(page))
    {
      if PreviousEnabled(page) {
        page := page - 1;
      }
    }

    /** Next: one page on, unless on the page the last response gave as the
        page count. */
    method ClickNext()
      requires Valid()
      modifies this`page
      ensures Valid()
      ensures page == AfterNext(old(page), totalPages)
    {
      if NextEnabled(page, totalPages) {
        page := page + 1;
      }
    }

    /** A choice in the filter menu: "all" clears the filter, any other value
        becomes the filter, and the page goes back to 1. */
    method SelectFilter(value: string)
      modifies this`filterStatus, this`page
      ensures filterStatus == (if value == "all" then None else Some(value))
      ensures page == 1 && Valid()
      ensures FilterOffered() <==> value == "all" || ParseStatus(value).Some?
    {
      filterStatus := if value == "all" then None else Some(value);
      page := 1;
    }

    /** A change of the search box: the new text is kept and a commit of it
        is scheduled, replacing any commit still pending. */
    method TypeSearch(value: string)
      requires Valid()
      modifies this`search, this`searchPending
      ensures Valid()
      ensures search == value
      ensures searchPending == (old(searchPending) || value != old(search))
    {
      if value != search {
        search := value;
        searchPending := true;
      }
    }

    /** The debounce delay runs out: a pending commit makes the search box
        text the committed search and resets the page to 1; the filter is
        left as it is. */
    method DebounceElapsed()
      requires Valid()
      modifies this`debouncedSearch, this`page, this`searchPending
      ensures Valid() && !searchPending
      ensures old(searchPending) ==> debouncedSearch == search && page == 1
      ensures !old(searchPending) ==> debouncedSearch == old(debouncedSearch) && page == old(page)
    {
      if searchPending {
        debouncedSearch := search;
        page := 1;
        searchPending := false;
      }
    }

    /** A response arrives: its page count is what Next compares with. */
    method ReceiveResponse(response: ListResponse)
      requires Valid()
      modifies this`totalPages
      ensures Valid()
      ensures totalPages == Some(response.totalPages)
    {
      totalPages := Some(response.totalPages);
    }
  }
}
