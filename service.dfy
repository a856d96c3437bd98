/**
 * The STK API server (`stkAPIServer`): initiating a push and handling its
 * acknowledgment, reading, listing, processing and publishing transactions,
 * refreshing the access token, and polling stale submissions for their
 * result. The database and Redis are the map-backed `Store.Database` and
 * `Cache.Redis`; every reply from M-Pesa is an input of the operation that
 * receives it.
 */
module Service {
  import opened Common
  import opened Model
  import opened Api
  import opened Store
  import opened Cache
  import Options
  import Ack
  import Poll
  import Ingest
  import Listing
  import Paging
  import Worker
  import Base64

  /** How long an initiating request stays in the cache: 15 minutes. */
  const CacheTtl: int := 15 * 60

  /** `STKRequestBody`: the push request sent to M-Pesa. */
  datatype PushBody = PushBody(
    businessShortCode: string,
    password: string,
    timestamp: string,
    transactionType: string,
    amount: string,
    partyA: string,
    partyB: string,
    phoneNumber: string,
    callBackUrl: string,
    accountReference: string,
    transactionDesc: string)

  /** What `InitiateSTK` hands to its detached acknowledgment handler: the
      stored row, the request as it will be cached, the push body and the
      `Authorization` header it is sent with. */
  datatype PendingPush = PendingPush(recordId: nat, request: InitiateRequest, body: PushBody, authorization: string)

  /** The validation of `InitiateSTK`, in the order its checks run; the
      field names are spelled as the service spells them. */
  function ValidateInitiate(req: Option<InitiateRequest>): (err: Option<Error>)
    ensures err.None? <==> (req.Some? && req.value.initiatorId != "" && req.value.phone != "" &&
                           req.value.accountReference != "" && req.value.amount > 0 &&
                           !(req.value.publish && req.value.ChannelName() == ""))
    ensures err.Some? ==> err.value.MissingField?
    ensures req.Some? && req.value.initiatorId == "" ==> err == Some(MissingField("inititator id"))
  {
    if req.None? then Some(MissingField("request"))
    else if req.value.initiatorId == "" then Some(MissingField("inititator id"))
    else if req.value.phone == "" then Some(MissingField("phone"))
    else if req.value.accountReference == "" then Some(MissingField("account reference"))
    else if req.value.amount <= 0 then Some(MissingField("amount"))
    else if req.value.publish && req.value.ChannelName() == "" then Some(MissingField("publisch channel"))
    else None
  }

  /** The request with `PublishMessage.Payload["short_code"]` set, creating
      the publish message and its payload when they are missing. */
  function WithShortCode(req: InitiateRequest, shortCode: string): (r: InitiateRequest)
    ensures r.publishMessage.Some? && "short_code" in r.publishMessage.value.payload
    ensures r.publishMessage.value.payload["short_code"] == shortCode
    ensures r.ChannelName() == req.ChannelName() && r.OnlyOnSuccess() == req.OnlyOnSuccess()
    ensures r.publish == req.publish && r.initiatorId == req.initiatorId
    ensures req.publishMessage.Some? ==>
              forall k :: k in req.publishMessage.value.payload && k != "short_code" ==>
                k in r.publishMessage.value.payload &&
                r.publishMessage.value.payload[k] == req.publishMessage.value.payload[k]
  {
    var info := if req.publishMessage.Some? then req.publishMessage.value else PublishInfo(false, "", map[]);
    req.(publishMessage := Some(info.(payload := info.payload["short_code" := shortCode])))
  }

  /** A request the acknowledgment handler cached gives the callback the
      short code it was initiated with, even through the unguarded read. */
  lemma CachedRequestCarriesShortCode(req: InitiateRequest, shortCode: string)
    ensures Ingest.ShortCodeAsWritten(WithShortCode(req, shortCode)) == Some(shortCode)
    ensures Ingest.ShortCode(WithShortCode(req, shortCode)) == shortCode
  {
  }

  /** The row `InitiateSTK` inserts: SUBMITTED, no M-Pesa ids, no receipt,
      the flags left to the column default. */
  function SubmittedRecord(req: InitiateRequest, phone: string, shortCode: string, accountRef: string,
                           now: int): (r: Record)
    ensures HasStatus(r, RequestSubmited)
    ensures r.mpesaReceiptId.Null? && r.checkoutRequestId.Null? && r.merchantRequestId.Null?
    ensures r.phoneNumber == phone && r.shortCode == shortCode && r.accountReference == accountRef
    ensures r.amount == IntToString(req.amount) && r.initiatorId == req.initiatorId
    ensures r.transactionDesc == Str(req.transactionDesc) && r.transactionTime == Some(now)
    ensures r.succeeded == "" && r.processed == ""
  {
    Record(
      id := 0,
      initiatorId := req.initiatorId,
      initiatorCustomerReference := req.initiatorCustomerReference,
      initiatorCustomerNames := req.initiatorCustomerNames,
      phoneNumber := phone,
      amount := IntToString(req.amount),
      shortCode := shortCode,
      accountReference := accountRef,
      transactionDesc := Str(req.transactionDesc),
      merchantRequestId := Null,
      checkoutRequestId := Null,
      stkResponseDescription := Null,
      stkResponseCustomerMessage := Null,
      stkResponseCode := Null,
      resultCode := Null,
      resultDescription := Null,
      mpesaReceiptId := Null,
      stkStatus := Str(StatusName(RequestSubmited)),
      source := Null,
      tag := Null,
      succeeded := "",
      processed := "",
      transactionTime := Some(now),
      createdAt := 0)
  }

  /** The stored row reads as submitted, unprocessed and not succeeded. */
  lemma SubmittedRowIsPending(req: InitiateRequest, phone: string, shortCode: string, accountRef: string,
                              id: nat, now: int)
    ensures var c := Database.Created(SubmittedRecord(req, phone, shortCode, accountRef, now), id, now);
      HasStatus(c, RequestSubmited) && c.succeeded == No && c.processed == No && c.id == id &&
      !ToProto(Some(c)).value.succeeded && !ToProto(Some(c)).value.processed
  {
  }

  /** The row after the acknowledgment handler has seen `reply`: the
      accepted or rejected update, and a second, failing update when the
      request could not be cached. */
  function AckRow(rec: Record, reply: Ack.AckReply, cacheErr: Option<string>, now: int): (r: Record)
    ensures r.succeeded == No && r.processed == No && r.transactionTime == Some(now)
    ensures HasStatus(r, RequestSuccess) <==> Ack.Decide(reply).Accepted? && cacheErr.None?
    ensures HasStatus(r, RequestFailed) <==> !(Ack.Decide(reply).Accepted? && cacheErr.None?)
    ensures Ack.Decide(reply).Rejected? ==> r.stkResponseDescription == Str(Ack.Decide(reply).reason)
    ensures Ack.Decide(reply).Accepted? && cacheErr.Some? ==>
              r.stkResponseDescription == Str("failed to set initiate stk request to cache: " + cacheErr.value)
    ensures Ack.Decide(reply).Accepted? ==>
              r.checkoutRequestId == Ack.WriteUnlessEmpty(rec.checkoutRequestId, Ack.Decide(reply).checkoutId)
    ensures r.id == rec.id && r.mpesaReceiptId == rec.mpesaReceiptId && r.createdAt == rec.createdAt
  {
    match Ack.Decide(reply)
    case Rejected(reason) => Ack.RejectedUpdate(rec, reason, now)
    case Accepted(_, fields) =>
      if cacheErr.Some? then
        Ack.RejectedUpdate(Ack.AcceptedUpdate(rec, fields, now),
                           "failed to set initiate stk request to cache: " + cacheErr.value, now)
      else Ack.AcceptedUpdate(rec, fields, now)
  }

  /** The row the store holds after its own values are written back: no
      other row holds its receipt. */
  lemma OwnReceiptFree(rows: map<nat, Record>, id: nat, r: Record)
    requires UniqueReceipts(rows) && id in rows
    requires r.mpesaReceiptId == rows[id].mpesaReceiptId
    ensures !ReceiptTaken(rows, r.mpesaReceiptId, id)
  {
  }

  /** The push body for a validated request: the short code pays in, the
      formatted phone pays out, and an empty description becomes "NA". */
  function PushBodyFor(req: InitiateRequest, opt: Options.OptionStk, phone: string, shortCode: string,
                       accountRef: string): (b: PushBody)
    ensures b.businessShortCode == shortCode && b.partyB == shortCode
    ensures b.partyA == phone && b.phoneNumber == phone
    ensures b.amount == IntToString(req.amount) && b.accountReference == accountRef
    ensures b.transactionDesc == FirstVal([req.transactionDesc, "NA"]) && b.transactionDesc != ""
    ensures b.password == opt.password && b.callBackUrl == opt.callBackUrl
  {
    PushBody(shortCode, opt.password, opt.timestamp, "CustomerPayBillOnline", IntToString(req.amount),
             phone, shortCode, phone, opt.callBackUrl, accountRef, FirstVal([req.transactionDesc, "NA"]))
  }

  /** The store filter `checkout_request_id = ?`. */
  function CheckoutIs(checkoutId: string): Record -> bool {
    (r: Record) => r.checkoutRequestId == Str(checkoutId)
  }

  /** The store filter `id = ?`. */
  function IdIs(id: nat): Record -> bool {
    (r: Record) => r.id == id
  }

  /** The store filter `mpesa_receipt_id = ?`. */
  function ReceiptIs(receipt: string): Record -> bool {
    (r: Record) => r.mpesaReceiptId == Str(receipt)
  }

  /** No row has id 0: the auto-increment counter starts at 1. */
  lemma NoRowWithIdZero(rows: map<nat, Record>, nextId: nat)
    requires WellFormed(rows, nextId)
    ensures Matching(rows, IdIs(0)) == {}
  {
    forall id | id in rows ensures !IdIs(0)(rows[id]) {
      assert rows[id].id == id && id >= 1;
    }
  }

  /** The `processed` column value for a request flag. */
  function ProcessedFlag(processed: bool): (v: string)
    ensures v == Yes <==> processed
    ensures v == No <==> !processed
  {
    if processed then Yes else No
  }

  /** The processed-state gate of `PublishStkTransaction`. */
  predicate PublishGate(state: ProcessedState, processed: bool) {
    state == ProcessStateUnspecified ||
    (state == Processed && processed) ||
    (state == NotProcessed && !processed)
  }

  class StkApiServer {
    const store: Database
    const cache: Redis
    /** The STK options with the derived password and basic token. */
    const option: Options.OptionStk
    /** `formatutil.FormatPhoneKE`, a library function whose rules are not
        part of this model. */
    const formatPhone: string -> string
    /** `OptionSTK.accessToken`, replaced by every successful refresh. */
    var accessToken: string

    ghost predicate Valid()
      reads this, store
    {
      store.Valid()
    }

    /** The server `NewStkAPI` builds from validated options: the basic
        token and the password are derived from them. */
    constructor (opt: Options.OptionStk, formatPhone: string -> string, store: Database, cache: Redis)
      requires store.Valid()
      ensures Valid()
      ensures this.store == store && this.cache == cache && this.formatPhone == formatPhone
      ensures option == opt.(basicToken := Options.BasicToken(opt), password := Options.Password(opt))
      ensures accessToken == opt.accessToken
    {
      this.store := store;
      this.cache := cache;
      this.formatPhone := formatPhone;
      option := opt.(basicToken := Options.BasicToken(opt), password := Options.Password(opt));
      accessToken := opt.accessToken;
    }

    /** `InitiateSTK` up to its return: validate, store a SUBMITTED row,
        and leave the push to the acknowledgment handler. An invalid request
        writes nothing. */
    method InitiateStk(req: Option<InitiateRequest>, now: int)
      returns (r: Result<InitiateResponse>, pending: Option<PendingPush>)
      requires Valid()
      modifies store
      ensures Valid()
      ensures ValidateInitiate(req).Some? ==>
                r == Failure(ValidateInitiate(req).value) && pending.None? && unchanged(store)
      ensures ValidateInitiate(req).None? ==>
                var rq := req.value;
                var shortCode := FirstVal([rq.shortCode, option.businessShortCode]);
                var accountRef := FirstVal([rq.accountReference, option.accountReference]);
                var phone := formatPhone(rq.phone);
                r == Success(InitiateResponse(true, "Processing. Stk popup will come shortly")) &&
                pending == Some(PendingPush(old(store.nextId), WithShortCode(rq, shortCode),
                                            PushBodyFor(rq, option, phone, shortCode, accountRef),
                                            "Bearer " + accessToken)) &&
                old(store.nextId) !in old(store.rows) &&
                store.rows == old(store.rows)[old(store.nextId) :=
                  Database.Created(SubmittedRecord(rq, phone, shortCode, accountRef, now), old(store.nextId), now)] &&
                store.nextId == old(store.nextId) + 1
    {
      var err := ValidateInitiate(req);
      if err.Some? {
        return Failure(err.value), None;
      }
      var rq := req.value;
      var phone := formatPhone(rq.phone);
      var shortCode := FirstVal([rq.shortCode, option.businessShortCode]);
      var accountRef := FirstVal([rq.accountReference, option.accountReference]);
      var body := PushBodyFor(rq, option, phone, shortCode, accountRef);
      var request := WithShortCode(rq, shortCode);
      var id := store.Create(SubmittedRecord(rq, phone, shortCode, accountRef, now), now);
      if id.None? {
        return Failure(Internal("failed to save stk")), None;
      }
      pending := Some(PendingPush(id.value, request, body, "Bearer " + accessToken));
      r := Success(InitiateResponse(true, "Processing. Stk popup will come shortly"));
    }

    /** The detached acknowledgment handler of `InitiateSTK`, given M-Pesa's
        `reply` to the push and `cacheErr`, the error Redis gives for the
        `SET` if it fails. Only the pushed row and, on acceptance, the
        cache entry of its checkout id change. */
    method HandleAck(pending: PendingPush, reply: Ack.AckReply, cacheErr: Option<string>, now: int)
      requires Valid()
      modifies store, cache
      ensures Valid() && store.nextId == old(store.nextId)
      ensures store.rows ==
                if pending.recordId in old(store.rows)
                then old(store.rows)[pending.recordId := AckRow(old(store.rows)[pending.recordId], reply, cacheErr, now)]
                else old(store.rows)
      ensures cache.sets == old(cache.sets) && cache.published == old(cache.published)
      ensures cache.entries ==
                if Ack.Decide(reply).Accepted? && cacheErr.None?
                then old(cache.entries)[Options.RequestKey(Ack.Decide(reply).checkoutId) :=
                                          Entry(CachedRequest(pending.request), now + CacheTtl)]
                else old(cache.entries)
    {
      var id := pending.recordId;
      var failure: Option<string> := None;
      match Ack.Decide(reply) {
        case Rejected(reason) =>
          failure := Some(reason);
        case Accepted(checkoutId, fields) =>
          var updated := true;
          if id in store.rows {
            updated := RewriteRow(id, Ack.AcceptedUpdate(store.rows[id], fields, now));
          }
          if !updated {
            failure := Some("failed to update stk payload");
          } else if cacheErr.Some? {
            failure := Some("failed to set initiate stk request to cache: " + cacheErr.value);
          } else {
            cache.Set(Options.RequestKey(checkoutId), CachedRequest(pending.request), CacheTtl, now);
          }
      }
      if failure.Some? && id in store.rows {
        var _ := RewriteRow(id, Ack.RejectedUpdate(store.rows[id], failure.value, now));
      }
    }

    /** An update of a stored row that keeps its id and its receipt id: the
        unique constraint cannot break, so the statement succeeds. */
    method RewriteRow(id: nat, r: Record) returns (ok: bool)
      requires Valid() && id in store.rows
      requires r.id == id && r.mpesaReceiptId == store.rows[id].mpesaReceiptId
      modifies store
      ensures Valid() && store.nextId == old(store.nextId)
      ensures ok && store.rows == old(store.rows)[id := r]
    {
      OwnReceiptFree(store.rows, id, r);
      ok := store.Update(id, r);
      assert r.(id := id) == r;
    }

    /** `GetStkTransaction`. The lookup by id compares with a local `key`
        that is never assigned, so it asks for id 0, which no row has. */
    method GetStkTransaction(req: Option<GetRequest>) returns (r: Result<StkTransactionView>)
      requires Valid()
      ensures req.None? ==> r == Failure(MissingField("request"))
      ensures req.Some? && req.value.transactionId == 0 && req.value.mpesaReceiptId == "" ==>
                r == Failure(MissingField("transaction/mpesa id"))
      ensures req.Some? && (req.value.transactionId != 0 || req.value.mpesaReceiptId != "") && r.Failure? ==>
                r.error == NotFound("stk transaction with id " + NatToString(req.value.transactionId) +
                                    " does not exist")
      ensures req.Some? && req.value.transactionId != 0 ==> r.Failure?
      ensures req.Some? && req.value.transactionId == 0 && req.value.mpesaReceiptId != "" ==>
                var receipt := req.value.mpesaReceiptId;
                (r.Success? <==> exists id :: id in store.rows && store.rows[id].mpesaReceiptId == Str(receipt)) &&
                (forall id :: id in store.rows && store.rows[id].mpesaReceiptId == Str(receipt) ==>
                   r == ToProto(Some(store.rows[id])))
    {
      var key: nat := 0;
      if req.None? {
        return Failure(MissingField("request"));
      }
      if req.value.transactionId == 0 && req.value.mpesaReceiptId == "" {
        return Failure(MissingField("transaction/mpesa id"));
      }
      var db: Option<Record>;
      if req.value.transactionId != 0 {
        NoRowWithIdZero(store.rows, store.nextId);
        db := store.First(IdIs(key));
      } else {
        db := store.First(ReceiptIs(req.value.mpesaReceiptId));
        if db.Some? {
          forall id | id in store.rows && store.rows[id].mpesaReceiptId == Str(req.value.mpesaReceiptId)
            ensures store.rows[id] == db.value
          {
            assert id in Matching(store.rows, ReceiptIs(req.value.mpesaReceiptId));
          }
        } else {
          forall id | id in store.rows
            ensures store.rows[id].mpesaReceiptId != Str(req.value.mpesaReceiptId)
          {
            assert id !in Matching(store.rows, ReceiptIs(req.value.mpesaReceiptId));
          }
        }
      }
      if db.None? {
        return Failure(NotFound("stk transaction with id " + NatToString(req.value.transactionId) +
                                " does not exist"));
      }
      r := ToProto(db);
    }

    /** `ListStkTransactions` in id order. `allowed` phones come from the
        caller's set in Redis; the rows come from one `id DESC` query for a
        page and one row more, which tells whether a next page exists. */
    method ListStkTransactions(req: Option<ListRequest>, authenticated: bool, actorId: string, isAdmin: bool)
      returns (r: Result<ListResponse>)
      requires Valid()
      requires req.Some? ==> req.value.OrderBy() == CreateTimestamp
      ensures !authenticated ==> r == Failure(Unauthenticated)
      ensures authenticated && req.None? ==> r == Failure(MissingField("list request"))
      ensures authenticated && req.Some? ==>
                var q := Listing.ListQuery(req.value, isAdmin, cache.Members(Options.AllowedPhonesKey(actorId)),
                                           store.nextId);
                (q.Failure? ==> r == Failure(q.error)) &&
                (q.Success? ==> r.Success? && Paging.ListedPage(store.rows, Listing.Selecting(q.value.sel), q.value, r.value))
    {
      if !authenticated {
        return Failure(Unauthenticated);
      }
      if req.None? {
        return Failure(MissingField("list request"));
      }
      var allowed := cache.Members(Options.AllowedPhonesKey(actorId));
      var query := Listing.ListQuery(req.value, isAdmin, allowed, store.nextId);
      if query.Failure? {
        return Failure(query.error);
      }
      var resp := RunQuery(query.value);
      r := Success(resp);
    }

    /** The statements of a listing query: the count when it is wanted, the
        `id DESC` scan for a page and one row more, and the page read from it. */
    method RunQuery(q: Listing.Query) returns (resp: ListResponse)
      requires Valid() && 1 <= q.pageSize
      ensures Paging.ListedPage(store.rows, Listing.Selecting(q.sel), q, resp)
    {
      var p := Listing.Selecting(q.sel);
      var count := if q.countWanted then |Matching(store.rows, p)| else 0;
      var dbs := Below(store.rows, p, q.hi, q.pageSize + 1);
      var pbs, token := ReadPage(dbs, q.pageSize);
      resp := ListResponse(token, pbs, count);
    }

    /** The loop over the fetched rows `ids` of `ListStkTransactions`: the
        views of the first `pageSize` rows, and a next-page token naming the
        last of them when a row beyond the page was fetched. */
    method ReadPage(ids: seq<nat>, pageSize: nat) returns (pbs: seq<StkTransactionView>, token: string)
      requires 1 <= pageSize
      requires forall i :: 0 <= i < |ids| ==> ids[i] in store.rows
      ensures Paging.PageOf(store.rows, ids, pageSize, pbs, token)
    {
      pbs := [];
      var key := "";
      var i := 0;
      while i < |ids|
        invariant 0 <= i <= |ids| && i <= pageSize && |pbs| == i
        invariant Paging.Viewed(store.rows, ids, pbs)
        invariant i > 0 ==> key == NatToString(ids[i - 1])
      {
        var pb := ToProto(Some(store.rows[ids[i]]));
        if i == pageSize {
          break;
        }
        Paging.ViewedAppend(store.rows, ids, pbs, pb.value);
        pbs := pbs + [pb.value];
        key := NatToString(ids[i]);
        i := i + 1;
      }
      token := "";
      if |ids| > pageSize {
        token := Base64.Encode(StringToBytes(key));
      }
    }

    /** `ProcessStkTransaction`: sets `processed` to the request's flag,
        which may turn a processed transaction back to "NO". The update by
        id filters on the never-assigned `key`, so it changes no row. */
    method ProcessStkTransaction(req: Option<ProcessRequest>, authorized: bool) returns (r: Result<()>)
      requires Valid()
      modifies store
      ensures Valid() && store.nextId == old(store.nextId) && store.rows.Keys == old(store.rows).Keys
      ensures r.Failure? ==> store.rows == old(store.rows)
      ensures !authorized ==> r == Failure(Unauthenticated)
      ensures authorized && req.None? ==> r == Failure(MissingField("process request"))
      ensures authorized && req.Some? && req.value.transactionId == 0 && req.value.mpesaReceiptId == "" ==>
                r == Failure(MissingField("transaction/mpesa id"))
      ensures authorized && req.Some? && req.value.transactionId != 0 ==>
                r == Success(()) && store.rows == old(store.rows)
      ensures authorized && req.Some? && req.value.transactionId == 0 && req.value.mpesaReceiptId != "" ==>
                r == Success(()) &&
                forall id :: id in store.rows ==>
                  store.rows[id] ==
                    if old(store.rows)[id].mpesaReceiptId == Str(req.value.mpesaReceiptId)
                    then old(store.rows)[id].(processed := ProcessedFlag(req.value.processed))
                    else old(store.rows)[id]
    {
      if !authorized {
        return Failure(Unauthenticated);
      }
      var key: nat := 0;
      if req.None? {
        return Failure(MissingField("process request"));
      }
      if req.value.transactionId == 0 && req.value.mpesaReceiptId == "" {
        return Failure(MissingField("transaction/mpesa id"));
      }
      var processed := No;
      if req.value.processed {
        processed := Yes;
      }
      if req.value.transactionId != 0 {
        NoRowWithIdZero(store.rows, store.nextId);
        store.SetProcessedWhere(IdIs(key), processed);
        forall id | id in store.rows ensures store.rows[id] == old(store.rows)[id] {
          assert id !in Matching(old(store.rows), IdIs(0));
        }
      } else {
        store.SetProcessedWhere(ReceiptIs(req.value.mpesaReceiptId), processed);
      }
      r := Success(());
    }

    /** `PublishStkTransaction`, given `publishErr`, the error Redis gives
        for the `PUBLISH` if it fails. A message without a channel is
        accepted and not published. */
    method PublishStkTransaction(req: Option<PublishRequest>, authorized: bool, publishErr: Option<string>)
      returns (r: Result<()>)
      modifies cache
      ensures cache.entries == old(cache.entries) && cache.sets == old(cache.sets)
      ensures !authorized ==> r == Failure(Unauthenticated)
      ensures authorized && req.None? ==> r == Failure(MissingField("publish request"))
      ensures authorized && req.Some? && req.value.publishMessage.None? ==>
                r == Failure(MissingField("publish message"))
      ensures !(authorized && req.Some? && req.value.publishMessage.Some?) ==>
                cache.published == old(cache.published)
      ensures authorized && req.Some? && req.value.publishMessage.Some? ==>
                var m := req.value.publishMessage.value;
                var sends := m.ChannelName() != "" && PublishGate(req.value.processedState, m.IsProcessed());
                (r.Failure? <==> sends && publishErr.Some?) &&
                (r.Failure? ==> r.error == Internal("publish failed: " + publishErr.value)) &&
                cache.published ==
                  old(cache.published) + if sends && publishErr.None? then [Publication(m.ChannelName(), m)] else []
    {
      if !authorized {
        return Failure(Unauthenticated);
      }
      if req.None? {
        return Failure(MissingField("publish request"));
      }
      if req.value.publishMessage.None? {
        return Failure(MissingField("publish message"));
      }
      var m := req.value.publishMessage.value;
      var channel := m.ChannelName();
      if channel == "" {
        return Success(());
      }
      var publish := match req.value.processedState {
        case ProcessStateUnspecified => true
        case Processed => m.IsProcessed()
        case NotProcessed => !m.IsProcessed()
      };
      if publish {
        if publishErr.Some? {
          return Failure(Internal("publish failed: " + publishErr.value));
        }
        cache.Publish(channel, m);
      }
      r := Success(());
    }

    /** `updateAccessToken` answered by `reply`: a successful refresh
        replaces the token, and any failure keeps the old one. */
    method UpdateAccessToken(reply: Worker.TokenReply) returns (err: Option<string>)
      modifies this
      ensures err.None? <==> Worker.RefreshOutcome(reply).NewToken?
      ensures err.Some? ==> err.value == Worker.RefreshOutcome(reply).message
      ensures accessToken == match Worker.RefreshOutcome(reply)
                             case NewToken(token) => token
                             case RefreshFailed(_) => old(accessToken)
    {
      match Worker.RefreshOutcome(reply) {
        case NewToken(token) =>
          accessToken := token;
          err := None;
        case RefreshFailed(message) =>
          err := Some(message);
      }
    }

    /** `updateAccessTokenWorker` until its context is cancelled, which
        happens after the refreshes answered by `replies`: between two
        refreshes it waits `dur`, whatever the previous one returned. */
    method UpdateAccessTokenWorker(dur: int, replies: seq<Worker.TokenReply>) returns (waits: seq<int>)
      requires |replies| >= 1
      modifies this
      ensures accessToken == Worker.TokenAfter(old(accessToken), replies)
      ensures |waits| == |replies| - 1
      ensures forall i :: 0 <= i < |waits| ==> waits[i] == dur
    {
      waits := [];
      var i := 0;
      while i < |replies|
        invariant 0 <= i <= |replies|
        invariant accessToken == Worker.TokenAfter(old(accessToken), replies[..i])
        invariant |waits| == if i < |replies| then i else i - 1
        invariant forall k :: 0 <= k < |waits| ==> waits[k] == dur
      {
        var _ := UpdateAccessToken(replies[i]);
        assert replies[..i + 1][..i] == replies[..i];
        if i + 1 < |replies| {
          waits := waits + [dur];
        }
        i := i + 1;
      }
      assert replies[..i] == replies;
    }

    /** `updateSTKResult` for the row `rec` the poller read, answered by
        `reply` at clock reading `nanos`. A failed write is only logged, so
        the error returned is the reply's. */
    method UpdateStkResult(rec: Record, reply: Poll.PollReply, nanos: nat) returns (err: Option<string>)
      requires Valid()
      modifies store
      ensures Valid() && store.nextId == old(store.nextId)
      ensures store.rows == Worker.PolledRows(old(store.rows), rec, reply, nanos)
      ensures err.Some? <==> Poll.Decide(reply).PollError?
      ensures err.Some? ==> err.value == Poll.Decide(reply).reason
    {
      match Poll.Decide(reply) {
        case PollError(reason) =>
          return Some(reason);
        case PollSkip =>
          return None;
        case PollWrite(resp) =>
          var systemId := Poll.SystemId(nanos, rec.merchantRequestId);
          if rec.id in store.rows {
            var updated := Poll.PollUpdate(store.rows[rec.id], resp, systemId);
            assert updated.id == rec.id;
            var _ := store.Update(rec.id, updated);
          }
          return None;
      }
    }

    /** The polls of one page, in page order, the j-th at clock reading
        `clock(k0 + j)`; `before` are the `k0` rows polled earlier in the
        run, from the table `rows0`, and `count` their answered polls. */
    method DispatchPage(page: seq<Record>, query: Record -> Poll.PollReply, clock: nat -> nat, k0: nat, count: nat,
                        ghost rows0: map<nat, Record>, ghost before: seq<Record>) returns (total: nat)
      requires Valid() && k0 == |before|
      requires store.rows == Worker.PolledAll(rows0, before, query, clock, 0)
      requires count == Worker.CountAnswered(before, query)
      modifies store
      ensures Valid() && store.nextId == old(store.nextId)
      ensures store.rows == Worker.PolledAll(rows0, before + page, query, clock, 0)
      ensures total == Worker.CountAnswered(before + page, query)
    {
      total := count;
      var j := 0;
      ghost var done := before;
      while j < |page|
        invariant 0 <= j <= |page| && done == before + page[..j]
        invariant Valid() && store.nextId == old(store.nextId)
        invariant store.rows == Worker.PolledAll(rows0, done, query, clock, 0)
        invariant total == Worker.CountAnswered(done, query)
      {
        ghost var prev, n0 := store.rows, total;
        var err := UpdateStkResult(page[j], query(page[j]), clock(k0 + j));
        if err.None? {
          total := total + 1;
        }
        Worker.PolledAllStep(rows0, done, page[j], query, clock, clock(k0 + j), prev, store.rows);
        Worker.CountAnsweredStep(done, page[j], query, n0, total);
        PrefixStep(before, page, j);
        done := done + [page[j]];
        j := j + 1;
      }
      assert page[..j] == page;
    }

    /** `updateSTKResults` as written, at time `now`, with M-Pesa answering
        a poll of a row by `query` and the clock reading of the k-th poll
        being `clock(k)`. `sent` are the rows polled, in order. Each page
        is the `id DESC` scan above the cursor `ID`, which ends at the
        smallest id of the page; so once more rows are stale than fit a
        page and one, some stale row is never polled. */
    method UpdateStkResultsAsWritten(now: int, query: Record -> Poll.PollReply, clock: nat -> nat)
      returns (count: nat, err: Option<string>, ghost sent: seq<Record>)
      requires Valid()
      modifies store
      ensures Valid() && store.nextId == old(store.nextId)
      ensures accessToken == "" ==>
                count == 0 && err == Some("missing access token") && sent == [] && store.rows == old(store.rows)
      ensures accessToken != "" ==>
                err.None? && store.rows == Worker.PolledAll(old(store.rows), sent, query, clock, 0) &&
                count == Worker.CountAnswered(sent, query)
      ensures accessToken != "" &&
              |Worker.Eligible(old(store.rows), Worker.StaleCutoff(now))| > Worker.PageLimit + 1 ==>
                exists id :: id in Worker.Eligible(old(store.rows), Worker.StaleCutoff(now)) &&
                  (forall i :: 0 <= i < |sent| ==> sent[i].id != id) && store.rows[id] == old(store.rows)[id]
    {
      if accessToken == "" {
        return 0, Some("missing access token"), [];
      }
      ghost var rows0 := store.rows;
      var cutoff := Worker.StaleCutoff(now);
      ghost var eligible := Worker.Eligible(rows0, cutoff);
      ghost var many := |eligible| > Worker.PageLimit + 1;
      ghost var missed: Option<nat> := None;
      var hi := store.nextId;
      var cursor: nat := 0;
      var next := true;
      var polls: nat := 0;
      count, err, sent := 0, None, [];
      while next
        invariant Valid() && store.nextId == hi && cursor < hi
        invariant polls == |sent|
        invariant store.rows == Worker.PolledAll(rows0, sent, query, clock, 0)
        invariant count == Worker.CountAnswered(sent, query)
        invariant missed.Some? ==>
                    missed.value in eligible && missed.value < cursor && Worker.Avoids(sent, missed.value)
        invariant many && missed.None? ==> cursor == 0 && sent == []
        invariant many && !next ==> missed.Some?
        decreases hi - cursor, if next then 1 else 0
      {
        var ids, page;
        ids, page, count, missed := PollPageDescending(cutoff, cursor, polls, count, rows0, sent, query, clock,
                                                       missed, many);
        if |ids| <= Worker.PageLimit {
          next := false;
        }
        sent := sent + page;
        polls := polls + |page|;
        if |ids| > 0 {
          cursor := ids[|ids| - 1];
        }
      }
      if missed.Some? {
        Worker.PolledAllFrame(rows0, sent, query, clock, 0, missed.value);
      }
    }

    /** `updateSTKResults` with the page scan in ascending id order, so the
        cursor ends at the largest id of each page: every row stale at the
        start is polled exactly once, in id order, as it was at the start. */
    method UpdateStkResults(now: int, query: Record -> Poll.PollReply, clock: nat -> nat)
      returns (count: nat, err: Option<string>, ghost sent: seq<Record>)
      requires Valid()
      modifies store
      ensures Valid() && store.nextId == old(store.nextId)
      ensures accessToken == "" ==>
                count == 0 && err == Some("missing access token") && sent == [] && store.rows == old(store.rows)
      ensures accessToken != "" ==>
                err.None? && store.rows == Worker.PolledAll(old(store.rows), sent, query, clock, 0) &&
                count == Worker.CountAnswered(sent, query)
      ensures accessToken != "" ==>
                var eligible := Worker.Eligible(old(store.rows), Worker.StaleCutoff(now));
                (forall i, j :: 0 <= i < j < |sent| ==> sent[i].id < sent[j].id) &&
                (forall i :: 0 <= i < |sent| ==> sent[i].id in eligible && sent[i] == old(store.rows)[sent[i].id]) &&
                (forall id :: id in eligible ==> exists i :: 0 <= i < |sent| && sent[i].id == id)
    {
      if accessToken == "" {
        return 0, Some("missing access token"), [];
      }
      ghost var rows0 := store.rows;
      var cutoff := Worker.StaleCutoff(now);
      ghost var eligible := Worker.Eligible(rows0, cutoff);
      var cursor: nat := 0;
      var next := true;
      var polls: nat := 0;
      count, err, sent := 0, None, [];
      while next
        invariant Valid() && store.nextId == old(store.nextId) && cursor < store.nextId
        invariant WellFormed(rows0, store.nextId)
        invariant polls == |sent|
        invariant store.rows == Worker.PolledAll(rows0, sent, query, clock, 0)
        invariant count == Worker.CountAnswered(sent, query)
        invariant Worker.PolledUpTo(rows0, cutoff, sent, cursor)
        invariant !next ==> forall id :: id in eligible ==> id <= cursor
        decreases store.nextId - cursor, if next then 1 else 0
      {
        var ids, page;
        ids, page, count := PollPageAscending(cutoff, cursor, polls, count, rows0, sent, query, clock);
        if |ids| <= Worker.PageLimit {
          next := false;
        }
        if |ids| > 0 {
          cursor := ids[|ids| - 1];
        } else {
          assert sent + page == sent;
        }
        sent := sent + page;
        polls := polls + |page|;
      }
    }

    /** One pass of the corrected loop: fetch the page above `cursor` in
        ascending id order and poll its rows in order, after the rows
        `before`. The rows polled so far are then all the stale rows up to
        the new cursor, and a short page leaves no stale row above it. */
    method PollPageAscending(cutoff: int, cursor: nat, k0: nat, count: nat, ghost rows0: map<nat, Record>,
                             ghost before: seq<Record>, query: Record -> Poll.PollReply, clock: nat -> nat)
      returns (ids: seq<nat>, page: seq<Record>, total: nat)
      requires Valid() && k0 == |before| && WellFormed(rows0, store.nextId) && cursor < store.nextId
      requires store.rows == Worker.PolledAll(rows0, before, query, clock, 0)
      requires count == Worker.CountAnswered(before, query)
      requires Worker.PolledUpTo(rows0, cutoff, before, cursor)
      modifies store
      ensures Valid() && store.nextId == old(store.nextId)
      ensures store.rows == Worker.PolledAll(rows0, before + page, query, clock, 0)
      ensures total == Worker.CountAnswered(before + page, query)
      ensures |ids| == 0 ==> page == []
      ensures |ids| > 0 ==>
                cursor < ids[|ids| - 1] < store.nextId && Worker.PolledUpTo(rows0, cutoff, before + page, ids[|ids| - 1])
      ensures |ids| <= Worker.PageLimit ==>
                forall id :: id in Worker.Eligible(rows0, cutoff) ==> id <= if |ids| > 0 then ids[|ids| - 1] else cursor
    {
      ids, page := ScanAscending(cutoff, cursor, rows0, before, query, clock);
      if |ids| <= Worker.PageLimit {
        Worker.LastPageCovers(Worker.Eligible(rows0, cutoff), cursor, ids);
      }
      total := DispatchPage(page, query, clock, k0, count, rows0, before);
      if |ids| > 0 {
        Worker.PolledUpToAppend(rows0, cutoff, before, cursor, ids, page);
      }
    }

    /** One pass of the loop as written: fetch the page above `cursor`
        and poll its rows in order, after the rows `before`. When more rows
        are stale than a page and one, the first pass picks out a stale row
        `missed` below its whole page, and no later pass reaches it. */
    method PollPageDescending(cutoff: int, cursor: nat, k0: nat, count: nat, ghost rows0: map<nat, Record>,
                              ghost before: seq<Record>, query: Record -> Poll.PollReply, clock: nat -> nat,
                              ghost missed: Option<nat>, ghost many: bool)
      returns (ids: seq<nat>, page: seq<Record>, total: nat, ghost missed': Option<nat>)
      requires Valid() && k0 == |before|
      requires store.rows == Worker.PolledAll(rows0, before, query, clock, 0)
      requires count == Worker.CountAnswered(before, query)
      requires many == (|Worker.Eligible(rows0, cutoff)| > Worker.PageLimit + 1)
      requires missed.Some? ==>
                 missed.value in Worker.Eligible(rows0, cutoff) && missed.value < cursor &&
                 Worker.Avoids(before, missed.value)
      requires many && missed.None? ==> cursor == 0 && before == []
      modifies store
      ensures Valid() && store.nextId == old(store.nextId)
      ensures ids == Below(old(store.rows), Worker.StaleAboveFilter(cutoff, cursor), store.nextId, Worker.PageLimit + 1)
      ensures |page| == |ids| && forall i :: 0 <= i < |ids| ==> page[i].id == ids[i] && cursor < ids[i] < store.nextId
      ensures store.rows == Worker.PolledAll(rows0, before + page, query, clock, 0)
      ensures total == Worker.CountAnswered(before + page, query)
      ensures many ==> missed'.Some?
      ensures missed'.Some? ==>
                missed'.value in Worker.Eligible(rows0, cutoff) && Worker.Avoids(before + page, missed'.value) &&
                missed'.value < if |ids| > 0 then ids[|ids| - 1] else cursor
    {
      ids, page := ScanDescending(cutoff, cursor);
      missed' := missed;
      if missed.None? && many {
        assert store.rows == rows0;
        var m := Worker.FirstPageMisses(rows0, store.nextId, cutoff, ids);
        missed' := Some(m);
      }
      if missed'.Some? {
        Worker.AvoidsAppend(before, page, ids, missed'.value);
      }
      total := DispatchPage(page, query, clock, k0, count, rows0, before);
    }

    /** The page query of the poller as written: `id DESC`, a page and one
        row more, stale rows with an id above `cursor`. */
    method ScanDescending(cutoff: int, cursor: nat) returns (ids: seq<nat>, page: seq<Record>)
      requires Valid()
      ensures ids == Below(store.rows, Worker.StaleAboveFilter(cutoff, cursor), store.nextId, Worker.PageLimit + 1)
      ensures |page| == |ids|
      ensures forall i :: 0 <= i < |ids| ==>
                ids[i] in store.rows && page[i] == store.rows[ids[i]] && page[i].id == ids[i] &&
                cursor < ids[i] < store.nextId && Worker.Stale(page[i], cutoff)
    {
      ids := Below(store.rows, Worker.StaleAboveFilter(cutoff, cursor), store.nextId, Worker.PageLimit + 1);
      page := Worker.RowsOf(store.rows, ids);
      forall i | 0 <= i < |ids| ensures page[i].id == ids[i] && cursor < ids[i] {
        assert store.rows[ids[i]].id == ids[i];
      }
    }

    /** The page query of the corrected poller: ascending ids, a page and one
        row more, stale rows with an id above `cursor`. Polling so far has
        only touched rows at or below the cursor, so the page is the
        smallest initially stale ids above it, with the rows as they were. */
    method ScanAscending(cutoff: int, cursor: nat, ghost rows0: map<nat, Record>, ghost sent: seq<Record>,
                         query: Record -> Poll.PollReply, clock: nat -> nat)
      returns (ids: seq<nat>, page: seq<Record>)
      requires Valid() && WellFormed(rows0, store.nextId)
      requires store.rows == Worker.PolledAll(rows0, sent, query, clock, 0)
      requires forall i :: 0 <= i < |sent| ==> sent[i].id <= cursor
      ensures |page| == |ids|
      ensures forall i, j :: 0 <= i < j < |ids| ==> ids[i] < ids[j]
      ensures forall i :: 0 <= i < |ids| ==>
                ids[i] in Worker.Eligible(rows0, cutoff) && cursor < ids[i] < store.nextId &&
                page[i] == rows0[ids[i]] && page[i].id == ids[i]
      ensures forall id :: id in Worker.Eligible(rows0, cutoff) && cursor < id && id !in ids ==>
                |ids| == Worker.PageLimit + 1 && id > ids[|ids| - 1]
    {
      Worker.PolledAllAbove(rows0, sent, query, clock, cursor);
      Worker.AscendingPage(rows0, store.rows, store.nextId, cutoff, cursor);
      ids := Above(store.rows, Worker.StaleFilter(cutoff), cursor, store.nextId, Worker.PageLimit + 1);
      page := Worker.RowsOf(store.rows, ids);
    }
  }
}
