/**
 * The rules of `ListStkTransactions` before and after its query: page-size
 * clamping, the page token, the row filter, and the guarantee that
 * following the next-page token neither repeats nor skips a row.
 */
module Listing {
  import opened Common
  import opened Model
  import opened Api
  import Base64
  import Dates
  import Store

  /** The page size used when none is given, and the cap for non-admins. */
  const DefaultPageSize: nat := 100

  /** The page size after clamping: non-positive sizes become the default,
      and only an admin may ask for more than the default. */
  function ClampPageSize(requested: int, isAdmin: bool): (n: nat)
    ensures 1 <= n
    ensures n == requested || n == DefaultPageSize
    ensures !isAdmin ==> n <= DefaultPageSize
    ensures 0 < requested <= DefaultPageSize ==> n == requested
    ensures requested <= 0 ==> n == DefaultPageSize
  {
    if requested <= 0 then DefaultPageSize
    else if requested > DefaultPageSize && !isAdmin then DefaultPageSize
    else requested
  }

  /** The page token that resumes after the row with id `lastId`: Base64
      of its decimal id. */
  function NextToken(lastId: nat): (t: string)
    ensures t != ""
  {
    Base64.Encode(StringToBytes(NatToString(lastId)))
  }

  /** The cursor text a page token carries, if it is valid Base64. */
  function DecodeCursor(token: string): Option<string> {
    match Base64.Decode(token)
    case None => None
    case Some(bs) => Some(BytesToString(bs))
  }

  /** The bound `id < cursor` puts on ids when the cursor is a numeral, as
      every token the service issues carries; MySQL reads any other text as
      a double, which this does not model. */
  function CursorBound(cursor: string): nat {
    LeadingNumber(cursor)
  }

  /** A token the service issued resumes exactly below the row it names. */
  lemma TokenRoundTrip(lastId: nat)
    ensures DecodeCursor(NextToken(lastId)) == Some(NatToString(lastId))
    ensures CursorBound(NatToString(lastId)) == lastId
  {
    var s := NatToString(lastId);
    Base64.DecodeEncode(StringToBytes(s));
    StringBytesRoundTrip(s);
    NatToStringRoundTrip(lastId);
  }

  /** What the filter of one listing selects: the request's filter, the
      caller's allowed phone numbers, and the resolved time window. */
  datatype Selection = Selection(filter: Option<ListFilter>, allowed: seq<string>, window: Option<(int, int)>)

  /** The time `BETWEEN` compares: the creation time, or the (nullable)
      transaction time, by the order field. */
  predicate InWindow(order: OrderField, window: (int, int), r: Record) {
    match order
    case CreateTimestamp => window.0 <= r.createdAt <= window.1
    case TransactionTimestamp =>
      r.transactionTime.Some? && window.0 <= r.transactionTime.value <= window.1
  }

  /** The status column holds the name of one of the requested statuses. */
  predicate StatusIn(statuses: seq<StkStatus>, r: Record) {
    r.stkStatus.Str? &&
    exists i :: 0 <= i < |statuses| && statuses[i] != StatusZero && StatusName(statuses[i]) == r.stkStatus.s
  }

  /** The WHERE clause of the listing, without the cursor. */
  predicate Selects(sel: Selection, r: Record) {
    (|sel.allowed| > 0 ==> r.phoneNumber in sel.allowed) &&
    (sel.window.Some? && sel.filter.Some? ==> InWindow(sel.filter.value.orderField, sel.window.value, r)) &&
    (sel.filter.Some? ==>
      var f := sel.filter.value;
      (|f.msisdns| > 0 ==> r.phoneNumber in f.msisdns) &&
      (|f.mpesaReceipts| > 0 ==> r.mpesaReceiptId.Str? && r.mpesaReceiptId.s in f.mpesaReceipts) &&
      (|f.initiatorCustomerReferences| > 0 ==> r.initiatorCustomerReference in f.initiatorCustomerReferences) &&
      (|f.shortCodes| > 0 ==> r.shortCode in f.shortCodes) &&
      (|f.stkStatuses| > 0 ==> StatusIn(f.stkStatuses, r)) &&
      (f.processState == Processed ==> r.processed == Yes) &&
      (f.processState == NotProcessed ==> r.processed == No))
  }

  /** The time window of a filter: the timestamp range when it is not
      empty, else the whole calendar day `txDate` names, else none. */
  function TimeWindow(f: ListFilter): (r: Result<Option<(int, int)>>)
    ensures f.endTimestamp > f.startTimestamp ==> r == Success(Some((f.startTimestamp, f.endTimestamp)))
    ensures f.endTimestamp <= f.startTimestamp && f.txDate == "" ==> r == Success(None)
    ensures f.endTimestamp <= f.startTimestamp && f.txDate != "" ==>
              (r.Failure? <==> Dates.GetTime(f.txDate).Failure?) &&
              (r.Success? ==> r.value == Some((Dates.GetTime(f.txDate).value,
                                               Dates.GetTime(f.txDate).value + Dates.SecondsPerDay)))
  {
    if f.endTimestamp > f.startTimestamp then Success(Some((f.startTimestamp, f.endTimestamp)))
    else if f.txDate != "" then
      match Dates.GetTime(f.txDate)
      case Failure(e) => Failure(e)
      case Success(t) => Success(Some((t, t + Dates.SecondsPerDay)))
    else Success(None)
  }

  /** The query a listing runs: the page size, the exclusive upper bound on
      ids, what it selects, and whether it counts the whole collection. */
  datatype Query = Query(pageSize: nat, hi: nat, sel: Selection, countWanted: bool)

  /** Everything `ListStkTransactions` decides before touching the table.
      `allowed` is the caller's set of allowed phones and `nextId` bounds
      the ids in the table. */
  function ListQuery(req: ListRequest, isAdmin: bool, allowed: seq<string>, nextId: nat): (r: Result<Query>)
    ensures req.pageSize < 0 ==> r == Failure(IncorrectVal("page size"))
    ensures req.pageSize >= 0 && req.pageToken != "" && DecodeCursor(req.pageToken).None? ==>
              r == Failure(InvalidArgument("failed to parse page token"))
    ensures req.pageSize >= 0 && (req.pageToken == "" || DecodeCursor(req.pageToken).Some?) &&
            req.filter.Some? && TimeWindow(req.filter.value).Failure? ==>
              r == Failure(TimeWindow(req.filter.value).error)
    ensures req.filter.Some? && |req.filter.value.initiatorTransactionReferences| > 0 ==> r.Failure?
    ensures r.Success? <==>
              && req.pageSize >= 0
              && (req.pageToken == "" || DecodeCursor(req.pageToken).Some?)
              && (req.filter.Some? ==> TimeWindow(req.filter.value).Success? &&
                                       |req.filter.value.initiatorTransactionReferences| == 0)
    ensures r.Success? ==> r.value.pageSize == ClampPageSize(req.pageSize, isAdmin)
    ensures r.Success? ==> 1 <= r.value.pageSize && (!isAdmin ==> r.value.pageSize <= DefaultPageSize)
    ensures r.Success? ==> (r.value.countWanted <==> req.pageToken == "" && req.view == BasicView)
    ensures r.Success? && req.pageToken == "" ==> r.value.hi == nextId
    ensures r.Success? && req.pageToken != "" ==>
              var cursor := DecodeCursor(req.pageToken).value;
              r.value.hi == if cursor == "" then nextId else CursorBound(cursor)
    ensures r.Success? ==> r.value.sel.filter == req.filter && r.value.sel.allowed == allowed
    ensures r.Success? ==> r.value.sel.window == if req.filter.Some? then TimeWindow(req.filter.value).value else None
  {
    if req.pageSize < 0 then Failure(IncorrectVal("page size"))
    else
      var pageSize := ClampPageSize(req.pageSize, isAdmin);
      var cursor := if req.pageToken == "" then Some("") else DecodeCursor(req.pageToken);
      if cursor.None? then Failure(InvalidArgument("failed to parse page token"))
      else
        var window := if req.filter.Some? then TimeWindow(req.filter.value) else Success(None);
        if window.Failure? then Failure(window.error)
        else if req.filter.Some? && |req.filter.value.initiatorTransactionReferences| > 0 then
          // the column does not exist, so the statement fails
          Failure(Internal("request failed"))
        else
          var hi := if cursor.value != "" then CursorBound(cursor.value) else nextId;
          Success(Query(pageSize, hi, Selection(req.filter, allowed, window.value),
                        req.pageToken == "" && req.view == BasicView))
  }

  /** Following the token of a full page runs the same query, resumed
      strictly below the last row that page returned. */
  lemma NextRequestResumes(req: ListRequest, isAdmin: bool, allowed: seq<string>, nextId: nat, lastId: nat)
    requires ListQuery(req, isAdmin, allowed, nextId).Success?
    ensures var q := ListQuery(req, isAdmin, allowed, nextId).value;
            var next := ListQuery(req.(pageToken := NextToken(lastId)), isAdmin, allowed, nextId);
      next.Success? && next.value == q.(hi := lastId, countWanted := false)
  {
    TokenRoundTrip(lastId);
    assert NatToString(lastId) != "";
  }

  /** In a strictly descending list, the element at `n - 1` separates the
      ones before it from the ones after it. */
  lemma DescendingSplit(s: seq<nat>, n: nat)
    requires 1 <= n <= |s|
    requires forall i, j :: 0 <= i < j < |s| ==> s[i] > s[j]
    ensures forall i :: 0 <= i < n ==> s[i] >= s[n - 1]
    ensures forall k :: n <= k < |s| ==> s[k] < s[n - 1]
  {
  }

  /** Two consecutive pages: the second holds only rows below every row of
      the first, and every selected row below the first page's bound that
      the first page did not return is within the second page's bound. */
  lemma PagesDoNotOverlap(rows: map<nat, Record>, p: Record -> bool, hi: nat, n: nat, m: nat)
    requires 1 <= n && |Store.Below(rows, p, hi, n + 1)| > n
    ensures var first := Store.Below(rows, p, hi, n + 1)[..n];
            var last := first[n - 1];
            var second := Store.Below(rows, p, last, m);
      (forall i, j :: 0 <= i < n && 0 <= j < |second| ==> second[j] < first[i]) &&
      (forall id :: id in Store.MatchingBelow(rows, p, hi) && id !in first ==>
         id in Store.MatchingBelow(rows, p, last))
  {
    var page := Store.Below(rows, p, hi, n + 1);
    var first := page[..n];
    var last := page[n - 1];
    DescendingSplit(page, n);
    assert forall i :: 0 <= i < n ==> first[i] == page[i];
    var second := Store.Below(rows, p, last, m);
    assert forall j :: 0 <= j < |second| ==> second[j] < last;
    forall id | id in Store.MatchingBelow(rows, p, hi) && id !in first
      ensures id < last
    {
      if id in page {
        var k :| 0 <= k < |page| && page[k] == id;
        assert k >= n;
      } else {
        assert id < page[|page| - 1];
      }
    }
  }

  /** The listing's WHERE clause as a store filter. */
  function Selecting(sel: Selection): Record -> bool {
    (r: Record) => Selects(sel, r)
  }
}
