/**
 * The rules of the two background workers: what one access-token refresh
 * decides, the token a run of refreshes leaves, which rows the result
 * poller treats as stale, and the table a sequence of polls leaves.
 */
module Worker {
  import opened Common
  import opened Model
  import opened Store
  import Ack
  import Poll

  // ---------------------------------------------------------------------------
  // Access-token refresh

  /** What the OAuth endpoint brought back: a transport error, or a response
      with its status code, its status line and its body. */
  datatype TokenReply = TokenRequestFailed(reason: string) | TokenResponse(statusCode: int, status: string, body: Ack.ReplyBody)

  /** The outcome of one `updateAccessToken`: the new token, or the error
      it returns (and the worker logs). */
  datatype TokenOutcome = NewToken(token: string) | RefreshFailed(message: string)

  /** One refresh. Only a 200 whose body decodes replaces the token, with
      `fmt.Sprint` of its `access_token` field. */
  function RefreshOutcome(reply: TokenReply): (o: TokenOutcome)
    ensures o.NewToken? <==> reply.TokenResponse? && reply.statusCode == 200 && reply.body.Object?
    ensures o.NewToken? ==> o.token == Ack.Print(reply.body.fields, "access_token")
    ensures reply.TokenRequestFailed? ==> o == RefreshFailed("request failed: " + reply.reason)
    ensures reply.TokenResponse? && reply.statusCode != 200 ==>
              o == RefreshFailed("expected status code OK got: " + reply.status)
    ensures reply.TokenResponse? && reply.statusCode == 200 && reply.body.Undecodable? ==>
              o == RefreshFailed("failed to json decode response: " + reply.body.reason)
  {
    match reply
    case TokenRequestFailed(reason) => RefreshFailed("request failed: " + reason)
    case TokenResponse(code, status, body) =>
      if code != 200 then RefreshFailed("expected status code OK got: " + status)
      else match body
        case Undecodable(reason) => RefreshFailed("failed to json decode response: " + reason)
        case Object(fields) => NewToken(Ack.Print(fields, "access_token"))
  }

  /** An empty 200 body decodes as an empty object, so the token becomes the
      text "<nil>", which the poller's empty-token guard lets through. */
  lemma EmptyBodyGivesNilToken(status: string)
    ensures RefreshOutcome(TokenResponse(200, status, Ack.Object(map[]))) == NewToken("<nil>")
    ensures RefreshOutcome(TokenResponse(200, status, Ack.Object(map[]))).token != ""
  {
  }

  /** The token after refreshes answered by `replies`, starting from `t`. */
  function TokenAfter(t: string, replies: seq<TokenReply>): string
    decreases |replies|
  {
    if replies == [] then t
    else
      var last := replies[|replies| - 1];
      match RefreshOutcome(last)
      case NewToken(token) => token
      case RefreshFailed(_) => TokenAfter(t, replies[..|replies| - 1])
  }

  /** A run of failed refreshes keeps the token. */
  lemma {:induction false} TokenAfterFailures(t: string, replies: seq<TokenReply>)
    requires forall i :: 0 <= i < |replies| ==> RefreshOutcome(replies[i]).RefreshFailed?
    ensures TokenAfter(t, replies) == t
    decreases |replies|
  {
    if replies != [] {
      var k := |replies| - 1;
      TokenAfterFailures(t, replies[..k]);
    }
  }

  /** After a run the token is the one the last successful refresh, the
      `i`-th, brought: the failures after it do not change it. */
  lemma {:induction false} TokenAfterIsLastSuccess(t: string, replies: seq<TokenReply>, i: nat)
    requires i < |replies| && RefreshOutcome(replies[i]).NewToken?
    requires forall j :: i < j < |replies| ==> RefreshOutcome(replies[j]).RefreshFailed?
    ensures TokenAfter(t, replies) == RefreshOutcome(replies[i]).token
    decreases |replies|
  {
    var k := |replies| - 1;
    if i < k {
      TokenAfterIsLastSuccess(t, replies[..k], i);
    }
  }

  // ---------------------------------------------------------------------------
  // Result poller

  /** `limit`: a page holds this many rows, and one more is fetched. */
  const PageLimit: nat := 1000

  /** The creation-time bound of a poll at `now`: ten minutes before it. */
  function StaleCutoff(now: int): int {
    now - 10 * 60
  }

  /** A row the poller asks M-Pesa about: still SUBMITTED and created
      before the cutoff. */
  predicate Stale(r: Record, cutoff: int) {
    HasStatus(r, RequestSubmited) && r.createdAt < cutoff
  }

  function StaleFilter(cutoff: int): Record -> bool {
    (r: Record) => Stale(r, cutoff)
  }

  /** The filter of a page as written: stale, with an id above the cursor. */
  function StaleAboveFilter(cutoff: int, lo: nat): Record -> bool {
    (r: Record) => Stale(r, cutoff) && r.id > lo
  }

  /** The rows stale at the start of a poll. */
  function Eligible(rows: map<nat, Record>, cutoff: int): set<nat> {
    Matching(rows, StaleFilter(cutoff))
  }

  /** The first scan as written, with the cursor at 0, selects exactly the
      stale rows. */
  lemma FirstScanIsEligible(rows: map<nat, Record>, nextId: nat, cutoff: int)
    requires WellFormed(rows, nextId)
    ensures MatchingBelow(rows, StaleAboveFilter(cutoff, 0), nextId) == Eligible(rows, cutoff)
  {
    forall id | id in Eligible(rows, cutoff) ensures id in MatchingBelow(rows, StaleAboveFilter(cutoff, 0), nextId) {
      assert rows[id].id == id && 1 <= id < nextId;
    }
  }

  /** The rows of a page, read at the ids its scan returned. */
  function RowsOf(rows: map<nat, Record>, ids: seq<nat>): (page: seq<Record>)
    requires forall i :: 0 <= i < |ids| ==> ids[i] in rows
    ensures |page| == |ids|
    ensures forall i :: 0 <= i < |ids| ==> page[i] == rows[ids[i]]
    decreases |ids|
  {
    if ids == [] then [] else [rows[ids[0]]] + RowsOf(rows, ids[1..])
  }

  /** The synthesized receipt a poll of `rec` at clock reading `nanos` writes. */
  function PollReceipt(rec: Record, nanos: nat): NullString {
    Str(Poll.SystemId(nanos, rec.merchantRequestId))
  }

  /** The poll of `rec` writes its row: the reply is JSON with all ids, the
      row still exists, and no other row holds the synthesized receipt. */
  predicate PollWrites(rows: map<nat, Record>, rec: Record, reply: Poll.PollReply, nanos: nat) {
    Poll.Decide(reply).PollWrite? && rec.id in rows && !ReceiptTaken(rows, PollReceipt(rec, nanos), rec.id)
  }

  /** The table after `updateSTKResult` of `rec` (see `PolledRowsEffect`). */
  function PolledRows(rows: map<nat, Record>, rec: Record, reply: Poll.PollReply, nanos: nat): (r: map<nat, Record>)
    ensures r.Keys == rows.Keys
  {
    if PollWrites(rows, rec, reply, nanos) then
      rows[rec.id := Poll.PollUpdate(rows[rec.id], Poll.Decide(reply).response, Poll.SystemId(nanos, rec.merchantRequestId))]
    else rows
  }

  /** A poll changes only the polled row, and only when it writes it; the
      row then leaves SUBMITTED, carries the synthesized receipt and keeps
      its `processed` flag and creation time. */
  lemma PolledRowsEffect(rows: map<nat, Record>, rec: Record, reply: Poll.PollReply, nanos: nat)
    ensures var r := PolledRows(rows, rec, reply, nanos);
      (forall id :: id in rows && id != rec.id ==> r[id] == rows[id]) &&
      (!PollWrites(rows, rec, reply, nanos) ==> r == rows) &&
      (PollWrites(rows, rec, reply, nanos) ==>
         !HasStatus(r[rec.id], RequestSubmited) && r[rec.id].mpesaReceiptId == PollReceipt(rec, nanos) &&
         r[rec.id].processed == rows[rec.id].processed && r[rec.id].createdAt == rows[rec.id].createdAt)
  {
    if PollWrites(rows, rec, reply, nanos) {
      Poll.PollLeavesSubmitted(rows[rec.id], Poll.Decide(reply).response, Poll.SystemId(nanos, rec.merchantRequestId));
    }
  }

  /** The table after polling the rows `sent` in order, the k-th of them
      at clock reading `clock(k0 + k)`, each answered by `query`. */
  function PolledAll(rows: map<nat, Record>, sent: seq<Record>, query: Record -> Poll.PollReply,
                     clock: nat -> nat, k0: nat): (r: map<nat, Record>)
    ensures r.Keys == rows.Keys
    decreases |sent|
  {
    if sent == [] then rows
    else
      var k := |sent| - 1;
      PolledRows(PolledAll(rows, sent[..k], query, clock, k0), sent[k], query(sent[k]), clock(k0 + k))
  }

  /** Polling one more row is one more `PolledRows` step. */
  lemma PolledAllLast(rows: map<nat, Record>, sent: seq<Record>, rec: Record,
                      query: Record -> Poll.PollReply, clock: nat -> nat, k0: nat)
    ensures PolledAll(rows, sent + [rec], query, clock, k0) ==
            PolledRows(PolledAll(rows, sent, query, clock, k0), rec, query(rec), clock(k0 + |sent|))
  {
    var all := sent + [rec];
    assert all != [] && |all| - 1 == |sent| && all[|sent|] == rec;
    assert all[..|sent|] == sent;
  }

  /** The table after one more poll, taken at clock reading `nanos`. */
  lemma PolledAllStep(rows: map<nat, Record>, done: seq<Record>, rec: Record, query: Record -> Poll.PollReply,
                      clock: nat -> nat, nanos: nat, prev: map<nat, Record>, next: map<nat, Record>)
    requires prev == PolledAll(rows, done, query, clock, 0) && nanos == clock(|done|)
    requires next == PolledRows(prev, rec, query(rec), nanos)
    ensures next == PolledAll(rows, done + [rec], query, clock, 0)
  {
    PolledAllLast(rows, done, rec, query, clock, 0);
  }

  /** Rows that were not polled keep their values. */
  lemma {:induction false} PolledAllFrame(rows: map<nat, Record>, sent: seq<Record>,
                                          query: Record -> Poll.PollReply, clock: nat -> nat, k0: nat, id: nat)
    requires id in rows && forall i :: 0 <= i < |sent| ==> sent[i].id != id
    ensures PolledAll(rows, sent, query, clock, k0)[id] == rows[id]
    decreases |sent|
  {
    if sent != [] {
      var k := |sent| - 1;
      PolledAllFrame(rows, sent[..k], query, clock, k0, id);
      PolledRowsEffect(PolledAll(rows, sent[..k], query, clock, k0), sent[k], query(sent[k]), clock(k0 + k));
    }
  }

  /** Polling rows at or below `cursor` leaves the rows above it as they
      were. */
  lemma PolledAllAbove(rows: map<nat, Record>, sent: seq<Record>,
                       query: Record -> Poll.PollReply, clock: nat -> nat, cursor: nat)
    requires forall i :: 0 <= i < |sent| ==> sent[i].id <= cursor
    ensures var polled := PolledAll(rows, sent, query, clock, 0);
      forall id :: cursor < id ==> (id in polled <==> id in rows) && (id in polled ==> polled[id] == rows[id])
  {
    forall id | cursor < id && id in rows
      ensures PolledAll(rows, sent, query, clock, 0)[id] == rows[id]
    {
      PolledAllFrame(rows, sent, query, clock, 0, id);
    }
  }

  /** How many of the polls of `sent` returned no error: the poller's count. */
  function CountAnswered(sent: seq<Record>, query: Record -> Poll.PollReply): (n: nat)
    ensures n <= |sent|
    decreases |sent|
  {
    if sent == [] then 0
    else
      var k := |sent| - 1;
      var before := CountAnswered(sent[..k], query);
      assert forall i :: 0 <= i < k ==> sent[..k][i] == sent[i];
      before + if Poll.Decide(query(sent[k])).PollError? then 0 else 1
  }

  /** Polling one more row adds one to the count exactly when its poll
      returned no error. */
  lemma CountAnsweredLast(sent: seq<Record>, rec: Record, query: Record -> Poll.PollReply)
    ensures CountAnswered(sent + [rec], query) ==
            CountAnswered(sent, query) + if Poll.Decide(query(rec)).PollError? then 0 else 1
  {
    var all := sent + [rec];
    assert all != [] && |all| - 1 == |sent| && all[|sent|] == rec;
    assert all[..|sent|] == sent;
  }

  /** The count after one more poll, given whether that poll failed. */
  lemma CountAnsweredStep(done: seq<Record>, rec: Record, query: Record -> Poll.PollReply, n: nat, next: nat)
    requires n == CountAnswered(done, query)
    requires next == n + if Poll.Decide(query(rec)).PollError? then 0 else 1
    ensures next == CountAnswered(done + [rec], query)
  {
    CountAnsweredLast(done, rec, query);
  }

  /** A page of the corrected scan, taken over a table whose rows above the
      cursor `lo` are still those of the start `rows0`: the smallest
      initially stale ids above `lo`, and every initially stale id above
      `lo` it leaves out lies above the whole (full) page. */
  lemma AscendingPage(rows0: map<nat, Record>, rows: map<nat, Record>, nextId: nat, cutoff: int, lo: nat)
    requires WellFormed(rows0, nextId)
    requires forall id :: lo < id ==> (id in rows <==> id in rows0) && (id in rows ==> rows[id] == rows0[id])
    ensures var ids := Above(rows, StaleFilter(cutoff), lo, nextId, PageLimit + 1);
      (forall i :: 0 <= i < |ids| ==> ids[i] in Eligible(rows0, cutoff) && lo < ids[i] < nextId &&
                                       ids[i] in rows && rows[ids[i]] == rows0[ids[i]] && rows0[ids[i]].id == ids[i]) &&
      (forall id :: id in Eligible(rows0, cutoff) && lo < id && id !in ids ==>
         |ids| == PageLimit + 1 && id > ids[|ids| - 1])
  {
    AboveReadsOnlyRange(rows, rows0, StaleFilter(cutoff), lo, nextId, PageLimit + 1);
    forall id | id in Eligible(rows0, cutoff) && lo < id
      ensures id in MatchingAbove(rows0, StaleFilter(cutoff), lo, nextId)
    {
    }
  }

  /** The first page as written, when more rows are stale than a page and
      one: it is full, and some stale row `m` lies below all of it. */
  lemma FirstPageMisses(rows: map<nat, Record>, nextId: nat, cutoff: int, ids: seq<nat>) returns (m: nat)
    requires WellFormed(rows, nextId)
    requires |Eligible(rows, cutoff)| > PageLimit + 1
    requires ids == Below(rows, StaleAboveFilter(cutoff, 0), nextId, PageLimit + 1)
    ensures |ids| == PageLimit + 1 && m in Eligible(rows, cutoff) && m !in ids && m < ids[|ids| - 1]
  {
    FirstScanIsEligible(rows, nextId, cutoff);
    SomeNotListed(ids, Eligible(rows, cutoff));
    m :| m in Eligible(rows, cutoff) && m !in ids;
    assert m in MatchingBelow(rows, StaleAboveFilter(cutoff, 0), nextId);
  }

  /** No row polled so far has the id `m`. */
  ghost predicate Avoids(sent: seq<Record>, m: nat) {
    forall i :: 0 <= i < |sent| ==> sent[i].id != m
  }

  /** Polling a page none of whose ids is `m` keeps `m` unpolled. */
  lemma AvoidsAppend(sent: seq<Record>, page: seq<Record>, ids: seq<nat>, m: nat)
    requires Avoids(sent, m)
    requires |page| == |ids| && (forall i :: 0 <= i < |ids| ==> page[i].id == ids[i]) && m !in ids
    ensures Avoids(sent + page, m)
  {
    forall i | 0 <= i < |sent + page| ensures (sent + page)[i].id != m {
      if i >= |sent| {
        assert (sent + page)[i] == page[i - |sent|];
      }
    }
  }

  /** The rows polled so far by the corrected poller: rows stale at the
      start, as they were at the start, in strictly increasing id order,
      and exactly those stale rows with an id up to `cursor`. */
  ghost predicate PolledUpTo(rows0: map<nat, Record>, cutoff: int, sent: seq<Record>, cursor: nat) {
    (forall i, j :: 0 <= i < j < |sent| ==> sent[i].id < sent[j].id) &&
    (forall i :: 0 <= i < |sent| ==>
       sent[i].id in Eligible(rows0, cutoff) && sent[i].id <= cursor && sent[i] == rows0[sent[i].id]) &&
    (forall id :: id in Eligible(rows0, cutoff) && id <= cursor ==> exists i :: 0 <= i < |sent| && sent[i].id == id)
  }

  /** Polling an ascending page of the stale rows right above the cursor
      moves the cursor to the page's last id. */
  lemma {:induction false} PolledUpToAppend(rows0: map<nat, Record>, cutoff: int, sent: seq<Record>, cursor: nat,
                                            ids: seq<nat>, page: seq<Record>)
    requires PolledUpTo(rows0, cutoff, sent, cursor)
    requires |page| == |ids| > 0
    requires forall i, j :: 0 <= i < j < |ids| ==> ids[i] < ids[j]
    requires forall i :: 0 <= i < |ids| ==>
               ids[i] in Eligible(rows0, cutoff) && cursor < ids[i] && page[i] == rows0[ids[i]] && page[i].id == ids[i]
    requires forall id :: id in Eligible(rows0, cutoff) && cursor < id && id !in ids ==> id > ids[|ids| - 1]
    ensures PolledUpTo(rows0, cutoff, sent + page, ids[|ids| - 1])
  {
    var all := sent + page;
    var last := ids[|ids| - 1];
    forall i | 0 <= i < |all|
      ensures all[i].id in Eligible(rows0, cutoff) && all[i].id <= last && all[i] == rows0[all[i].id]
    {
      if i < |sent| {
        assert all[i] == sent[i];
      } else {
        assert all[i] == page[i - |sent|];
        assert i - |sent| == |ids| - 1 || ids[i - |sent|] < last;
      }
    }
    forall i, j | 0 <= i < j < |all| ensures all[i].id < all[j].id {
      if j < |sent| {
        assert all[i] == sent[i] && all[j] == sent[j];
      } else if i < |sent| {
        assert all[i] == sent[i] && all[j] == page[j - |sent|];
      } else {
        assert all[i] == page[i - |sent|] && all[j] == page[j - |sent|];
      }
    }
    forall id | id in Eligible(rows0, cutoff) && id <= last
      ensures exists i :: 0 <= i < |all| && all[i].id == id
    {
      if id <= cursor {
        var i :| 0 <= i < |sent| && sent[i].id == id;
        assert all[i] == sent[i];
      } else {
        var k :| 0 <= k < |ids| && ids[k] == id;
        assert all[|sent| + k] == page[k];
      }
    }
  }

  /** A page shorter than the limit leaves no stale row above its last id
      (or above the cursor, when it is empty). */
  lemma LastPageCovers(eligible: set<nat>, cursor: nat, ids: seq<nat>)
    requires |ids| <= PageLimit
    requires forall i, j :: 0 <= i < j < |ids| ==> ids[i] < ids[j]
    requires forall i :: 0 <= i < |ids| ==> cursor < ids[i]
    requires forall id :: id in eligible && cursor < id && id !in ids ==> |ids| == PageLimit + 1
    ensures forall id :: id in eligible && cursor < id ==> id in ids
    ensures forall id :: id in eligible ==> id <= if |ids| > 0 then ids[|ids| - 1] else cursor
  {
    forall id | id in eligible ensures id <= if |ids| > 0 then ids[|ids| - 1] else cursor {
      if cursor < id {
        var k :| 0 <= k < |ids| && ids[k] == id;
        assert k == |ids| - 1 || ids[k] < ids[|ids| - 1];
      }
    }
  }
}
