/**
 * The HTTP endpoint M-Pesa calls with the result of an STK push: it
 * validates the callback, enriches it with the cached initiating request,
 * updates the stored transaction or inserts one, and publishes the outcome
 * when the initiating request asked for it.
 */
module Gateway {
  import opened Common
  import opened Model
  import opened Api
  import opened Store
  import Cache
  import Options
  import Ingest
  import Service

  /** The body of the success reply. */
  const ProcessedBody := "mpesa stk processed"

  /** The body `http.Error` writes for any failure: the message and a
      newline. */
  const FailedBody := "request handler failed\n"

  /** The initiating request a callback is enriched with: the cached one,
      or an empty request when the cache has none or holds bytes that do
      not unmarshal. */
  function InitiatorOf(cached: Option<Cache.Cached>): InitiateRequest {
    if cached.Some? && cached.value.CachedRequest? then cached.value.req else EmptyRequest
  }

  /** The row a valid callback `p` writes, under the id `rid`: the stored row
      `found` updated, or a new row built from `p` and the initiating
      request `init`, as the insert stores it at time `now`. */
  function CallbackRow(p: Ingest.CallbackPayload, init: InitiateRequest, found: Option<Record>,
                       rid: nat, now: int): (r: Record)
    ensures found.Some? ==> r == Ingest.UpdatedByCallback(found.value, p)
    ensures found.None? ==> r == Database.Created(Ingest.CreatedByCallback(p, init), rid, now)
  {
    if found.Some? then Ingest.UpdatedByCallback(found.value, p)
    else Database.Created(Ingest.CreatedByCallback(p, init), rid, now)
  }

  /** What the callback publishes for the stored view `view`: one message
      on the initiating request's channel, when that request asked for a
      publish, the success condition holds, there is a channel, and Redis
      accepts it. */
  function CallbackPublications(init: InitiateRequest, view: StkTransactionView, publishErr: Option<string>)
    : (ps: seq<Cache.Publication>)
    ensures |ps| <= 1
    ensures |ps| == 1 <==> Ingest.ShouldPublish(init, view) && init.ChannelName() != "" && publishErr.None?
    ensures |ps| == 1 ==> ps[0].channel == init.ChannelName() && ps[0].message.transactionInfo == Some(view)
  {
    var m := Ingest.CallbackPublishRequest(init, view).publishMessage.value;
    if Ingest.ShouldPublish(init, view) && m.ChannelName() != "" && publishErr.None?
    then [Cache.Publication(m.ChannelName(), m)] else []
  }

  /** A callback for a transaction the store does not hold inserts a row
      whose checkout id is the merchant id. When the two ids differ, a
      retry of the same callback finds no row either and takes the insert
      path again; with a receipt, that second insert breaks the unique
      receipt constraint. */
  lemma RetryAfterInsertFails(rows: map<nat, Record>, nextId: nat, p: Ingest.CallbackPayload,
                              init: InitiateRequest, now: int)
    requires 1 <= nextId && WellFormed(rows, nextId)
    requires Matching(rows, Service.CheckoutIs(p.checkoutRequestId)) == {}
    requires p.checkoutRequestId != p.merchantRequestId && p.mpesaReceiptNumber != ""
    ensures var row := CallbackRow(p, init, None, nextId, now);
            var rows1 := rows[nextId := row];
      Matching(rows1, Service.CheckoutIs(p.checkoutRequestId)) == {} &&
      ReceiptTaken(rows1, CallbackRow(p, init, None, nextId + 1, now).mpesaReceiptId, 0)
  {
    var row := CallbackRow(p, init, None, nextId, now);
    var rows1 := rows[nextId := row];
    assert row.checkoutRequestId == NullIfEmpty(p.merchantRequestId);
    assert rows1[nextId].mpesaReceiptId == CallbackRow(p, init, None, nextId + 1, now).mpesaReceiptId;
    forall id | id in rows1 ensures !Service.CheckoutIs(p.checkoutRequestId)(rows1[id]) {
      if id != nextId {
        assert id !in Matching(rows, Service.CheckoutIs(p.checkoutRequestId));
      }
    }
  }

  /** The callback endpoint, over the service's store and cache. */
  class StkGateway {
    const api: Service.StkApiServer

    ghost predicate Valid()
      reads this, api, api.store
    {
      api.Valid()
    }

    constructor (api: Service.StkApiServer)
      requires api.Valid()
      ensures Valid() && this.api == api
    {
      this.api := api;
    }

    /** `serveStkV1` followed by `ServeStkV1`'s error reply, for a callback
        arriving at time `now`: the status code, the error that is logged,
        and the reply body. `dbErr` is the text the store gives for a broken
        constraint and `publishErr` the error Redis gives for the `PUBLISH`,
        if any. */
    method ServeStkV1(req: Ingest.CallbackRequest, now: int, dbErr: string, publishErr: Option<string>)
      returns (code: int, err: Option<string>, body: string)
      requires Valid()
      modifies api.store, api.cache
      ensures Valid()
      ensures api.cache.entries == old(api.cache.entries) && api.cache.sets == old(api.cache.sets)
      ensures err.None? <==> code == 200
      ensures code == 200 ==> body == ProcessedBody
      ensures code != 200 ==> body == FailedBody
      ensures Ingest.Validate(req).Some? ==>
                code == 400 && err == Ingest.Validate(req) && api.store.rows == old(api.store.rows) && api.store.nextId == old(api.store.nextId) &&
                api.cache.published == old(api.cache.published)
      ensures Ingest.Validate(req).None? ==>
                var p := req.body.payload;
                var init := InitiatorOf(old(api.cache.Get(Options.RequestKey(p.checkoutRequestId), now)));
                var found := old(api.store.First(Service.CheckoutIs(p.checkoutRequestId)));
                var rid := if found.Some? then found.value.id else old(api.store.nextId);
                var row := CallbackRow(p, init, found, rid, now);
                var clash := ReceiptTaken(old(api.store.rows), row.mpesaReceiptId, if found.Some? then rid else 0);
                (clash ==>
                   code == 500 &&
                   err == Some((if found.Some? then "failed to update stk: " else "failed to create stk transaction: ")
                               + dbErr) && api.store.rows == old(api.store.rows) && api.store.nextId == old(api.store.nextId) &&
                   api.cache.published == old(api.cache.published)) &&
                (!clash ==>
                   code == 200 && api.store.rows == old(api.store.rows)[rid := row] &&
                   api.store.nextId == old(api.store.nextId) + (if found.Some? then 0 else 1) &&
                   api.cache.published ==
                     old(api.cache.published) + CallbackPublications(init, ToProto(Some(row)).value, publishErr))
    {
      err := Ingest.Validate(req);
      if err.Some? {
        return 400, err, FailedBody;
      }
      var p := req.body.payload;
      var init := Initiator(p.checkoutRequestId, now);
      var row;
      err, row := Upsert(p, init, now, dbErr);
      if err.Some? {
        return 500, err, FailedBody;
      }
      var pb := ToProto(Some(row)).value;
      PublishOutcome(init, pb, publishErr);
      return 200, None, ProcessedBody;
    }

    /** The initiating request cached under the checkout id, or an empty
        one when the cache has none or holds bytes that do not unmarshal. */
    method Initiator(checkoutId: string, now: int) returns (init: InitiateRequest)
      ensures init == InitiatorOf(api.cache.Get(Options.RequestKey(checkoutId), now))
    {
      init := EmptyRequest;
      var cached := api.cache.Get(Options.RequestKey(checkoutId), now);
      if cached.Some? && cached.value.CachedRequest? {
        init := cached.value.req;
      }
    }

    /** The store half of the handler: update the row holding the checkout
        id, or insert one when there is none. */
    method Upsert(p: Ingest.CallbackPayload, init: InitiateRequest, now: int, dbErr: string)
      returns (err: Option<string>, row: Record)
      requires Valid()
      modifies api.store
      ensures Valid()
      ensures var found := old(api.store.First(Service.CheckoutIs(p.checkoutRequestId)));
              var rid := if found.Some? then found.value.id else old(api.store.nextId);
              var clash := ReceiptTaken(old(api.store.rows), CallbackRow(p, init, found, rid, now).mpesaReceiptId,
                                        if found.Some? then rid else 0);
        row == CallbackRow(p, init, found, rid, now) &&
        (clash ==>
           err == Some((if found.Some? then "failed to update stk: " else "failed to create stk transaction: ")
                       + dbErr) &&
           api.store.rows == old(api.store.rows) && api.store.nextId == old(api.store.nextId)) &&
        (!clash ==>
           err.None? && api.store.rows == old(api.store.rows)[rid := row] &&
           api.store.nextId == old(api.store.nextId) + (if found.Some? then 0 else 1))
    {
      var db := api.store.First(Service.CheckoutIs(p.checkoutRequestId));
      match db {
        case Some(rec) =>
          row := Ingest.UpdatedByCallback(rec, p);
          var ok := api.store.Update(rec.id, row);
          err := if ok then None else Some("failed to update stk: " + dbErr);
        case None =>
          row := Database.Created(Ingest.CreatedByCallback(p, init), api.store.nextId, now);
          var id := api.store.Create(Ingest.CreatedByCallback(p, init), now);
          err := if id.Some? then None else Some("failed to create stk transaction: " + dbErr);
      }
    }

    /** The publish half of the handler: the outcome goes to
        `PublishStkTransaction` when the initiating request asked for it.
        The gateway's context carries an admin token, and a failed publish
        is only logged. */
    method PublishOutcome(init: InitiateRequest, pb: StkTransactionView, publishErr: Option<string>)
      modifies api.cache
      ensures api.cache.entries == old(api.cache.entries) && api.cache.sets == old(api.cache.sets)
      ensures api.cache.published == old(api.cache.published) + CallbackPublications(init, pb, publishErr)
    {
      if Ingest.ShouldPublish(init, pb) {
        var _ := api.PublishStkTransaction(Some(Ingest.CallbackPublishRequest(init, pb)), true, publishErr);
      }
    }
  }
}
