/**
 * The page `ListStkTransactions` answers with: which rows it holds, in which
 * order, and when it carries a next-page token.
 */
module Paging {
  import opened Common
  import opened Model
  import opened Api
  import Store
  import Listing

  /** The page read from the fetched ids `ids` (a page and possibly one
      more): the views of the first `pageSize` rows in order, and a
      next-page token exactly when a row beyond the page was fetched,
      naming the last row of the page. */
  ghost predicate PageOf(rows: map<nat, Record>, ids: seq<nat>, pageSize: nat,
                         pbs: seq<StkTransactionView>, token: string) {
    1 <= pageSize && |pbs| == Store.Min(pageSize, |ids|) && Viewed(rows, ids, pbs) &&
    (token != "" <==> |ids| > pageSize) &&
    (token != "" ==> |pbs| == pageSize && token == Listing.NextToken(ids[pageSize - 1]))
  }

  /** `pbs` are the views of the rows under the first `|pbs|` fetched ids. */
  ghost predicate Viewed(rows: map<nat, Record>, ids: seq<nat>, pbs: seq<StkTransactionView>) {
    |pbs| <= |ids| &&
    forall i :: 0 <= i < |pbs| ==> ids[i] in rows && pbs[i] == ToProto(Some(rows[ids[i]])).value
  }

  /** Reading the next fetched row extends the views by its own. */
  lemma ViewedAppend(rows: map<nat, Record>, ids: seq<nat>, pbs: seq<StkTransactionView>, v: StkTransactionView)
    requires Viewed(rows, ids, pbs) && |pbs| < |ids| && ids[|pbs|] in rows
    requires v == ToProto(Some(rows[ids[|pbs|]])).value
    ensures Viewed(rows, ids, pbs + [v])
  {
    assert forall i :: 0 <= i < |pbs| ==> (pbs + [v])[i] == pbs[i];
  }

  /** The response a listing query `q` gives over the rows `p` selects: the
      page read from the ids its `id DESC` scan fetches, and the count of
      all selected rows when it is wanted. */
  ghost predicate ListedPage(rows: map<nat, Record>, p: Record -> bool, q: Listing.Query, resp: ListResponse) {
    PageOf(rows, Store.Below(rows, p, q.hi, q.pageSize + 1), q.pageSize, resp.stkTransactions, resp.nextPageToken) &&
    resp.collectionCount == if q.countWanted then |Store.Matching(rows, p)| else 0
  }

  /** In a table whose rows sit under their own ids, the views of a page
      carry the fetched ids in order. */
  lemma PageCarriesIds(rows: map<nat, Record>, ids: seq<nat>, pageSize: nat,
                       pbs: seq<StkTransactionView>, token: string)
    requires forall id :: id in rows ==> rows[id].id == id
    requires PageOf(rows, ids, pageSize, pbs, token)
    ensures |pbs| <= |ids|
    ensures forall i :: 0 <= i < |pbs| ==> pbs[i].transactionId == ids[i]
    ensures token != "" ==> token == Listing.NextToken(pbs[|pbs| - 1].transactionId)
  {
    forall i | 0 <= i < |pbs| ensures pbs[i].transactionId == ids[i] {
      assert pbs[i].transactionId == rows[ids[i]].id;
    }
  }

  /** A listed page holds at most a page of rows, and has a next-page
      token exactly when more rows are selected than fit. */
  lemma ListedPageSize(rows: map<nat, Record>, p: Record -> bool, q: Listing.Query, resp: ListResponse)
    requires ListedPage(rows, p, q, resp)
    ensures |resp.stkTransactions| == Store.Min(q.pageSize, |Store.MatchingBelow(rows, p, q.hi)|)
    ensures resp.nextPageToken != "" <==> |Store.MatchingBelow(rows, p, q.hi)| > q.pageSize
  {
    var ids := Store.Below(rows, p, q.hi, q.pageSize + 1);
    assert |resp.stkTransactions| == Store.Min(q.pageSize, |ids|);
    assert resp.nextPageToken != "" <==> |ids| > q.pageSize;
    Store.BelowSize(rows, p, q.hi, q.pageSize + 1);
  }

  /** The rows of a listed page are selected rows below the cursor, newest
      (highest id) first, and the next-page token names the last of them. */
  lemma ListedPageRows(rows: map<nat, Record>, p: Record -> bool, q: Listing.Query, resp: ListResponse)
    requires forall id :: id in rows ==> rows[id].id == id
    requires ListedPage(rows, p, q, resp)
    ensures var pbs := resp.stkTransactions;
      (forall i :: 0 <= i < |pbs| ==> pbs[i].transactionId in Store.MatchingBelow(rows, p, q.hi)) &&
      (forall i, j :: 0 <= i < j < |pbs| ==> pbs[i].transactionId > pbs[j].transactionId) &&
      (resp.nextPageToken != "" ==> resp.nextPageToken == Listing.NextToken(pbs[|pbs| - 1].transactionId))
  {
    var ids := Store.Below(rows, p, q.hi, q.pageSize + 1);
    PageCarriesIds(rows, ids, q.pageSize, resp.stkTransactions, resp.nextPageToken);
  }
}
