/**
 * The rules of the M-Pesa result callback: which requests are rejected,
 * the status a result code gives, the row an update or an insert writes,
 * and when the outcome is published.
 */
module Ingest {
  import opened Common
  import opened Model
  import opened Api

  /** The callback fields the handler reads (`Body.stkCallback` and the
      items of its `CallbackMetadata`); the transaction time is in Unix
      seconds and the amount as `fmt.Sprint` prints it. */
  datatype CallbackPayload = CallbackPayload(
    merchantRequestId: string,
    checkoutRequestId: string,
    resultCode: int,
    resultDesc: string,
    mpesaReceiptNumber: string,
    phoneNumber: string,
    amount: string,
    transTime: int)

  datatype CallbackBody = BadJson(reason: string) | Payload(payload: CallbackPayload)

  datatype CallbackRequest = CallbackRequest(httpMethod: string, contentType: string, body: CallbackBody)

  /** The two content types a callback may carry, compared exactly. */
  predicate IsCallbackContentType(ct: string) {
    ct == "application/json" || ct == "application/json;charset=UTF-8"
  }

  /** The checks run before the cache or the store is touched; `Some` is
      the reason of a 400 reply. */
  function Validate(req: CallbackRequest): (err: Option<string>)
    ensures err.None? <==> req.httpMethod == "POST" && IsCallbackContentType(req.contentType) &&
                           req.body.Payload? && req.body.payload.checkoutRequestId != "" &&
                           req.body.payload.merchantRequestId != "" && req.body.payload.resultDesc != ""
    ensures req.httpMethod != "POST" ==>
              err == Some("bad method; only POST allowed; received " + req.httpMethod + " method")
    ensures err.Some? ==> err.value != ""
  {
    if req.httpMethod != "POST" then
      Some("bad method; only POST allowed; received " + req.httpMethod + " method")
    else if !IsCallbackContentType(req.contentType) then
      Some("incorrect content type: " + req.contentType)
    else
      match req.body
      case BadJson(reason) => Some("decoding json failed: " + reason)
      case Payload(p) =>
        if p.checkoutRequestId == "" then Some("missing checkout id")
        else if p.merchantRequestId == "" then Some("missing merchant id")
        else if p.resultDesc == "" then Some("missing description")
        else None
  }

  /** Result code 0 is a completed payment. */
  function CallbackStatus(p: CallbackPayload): (st: StkStatus)
    ensures st == StkSuccess <==> p.resultCode == 0
    ensures st == StkFailed <==> p.resultCode != 0
  {
    if p.resultCode == 0 then StkSuccess else StkFailed
  }

  function CallbackSucceeded(p: CallbackPayload): (flag: string)
    ensures flag == Yes <==> p.resultCode == 0
    ensures flag == Yes || flag == No
  {
    if p.resultCode == 0 then Yes else No
  }

  /** The row after a callback for a transaction the store already holds.
      A callback without a receipt keeps the stored one. */
  function UpdatedByCallback(rec: Record, p: CallbackPayload): (r: Record)
    ensures r.mpesaReceiptId == NullIfEmpty(FirstVal([p.mpesaReceiptNumber, rec.mpesaReceiptId.Text()]))
    ensures p.mpesaReceiptNumber == "" ==> r.mpesaReceiptId.Text() == rec.mpesaReceiptId.Text()
    ensures p.mpesaReceiptNumber != "" ==> r.mpesaReceiptId == Str(p.mpesaReceiptNumber)
    ensures HasStatus(r, CallbackStatus(p)) && r.succeeded == CallbackSucceeded(p)
    ensures r.resultCode == Str(IntToString(p.resultCode)) && r.transactionTime == Some(p.transTime)
    ensures r.resultDescription == NullIfEmpty(p.resultDesc)
    ensures r.processed == rec.processed
    // nothing else changes
    ensures r.(resultCode := rec.resultCode, resultDescription := rec.resultDescription,
               mpesaReceiptId := rec.mpesaReceiptId, transactionTime := rec.transactionTime,
               stkStatus := rec.stkStatus, succeeded := rec.succeeded) == rec
  {
    rec.(resultCode := Str(IntToString(p.resultCode)),
         resultDescription := NullIfEmpty(p.resultDesc),
         mpesaReceiptId := NullIfEmpty(FirstVal([p.mpesaReceiptNumber, rec.mpesaReceiptId.Text()])),
         transactionTime := Some(p.transTime),
         stkStatus := Str(StatusName(CallbackStatus(p))),
         succeeded := CallbackSucceeded(p))
  }

  /** `initReq.PublishMessage.Payload["short_code"]` as written: `None`
      stands for the nil-pointer dereference when the request has no
      publish message. A nil payload map reads as empty. */
  function ShortCodeAsWritten(init: InitiateRequest): (r: Option<string>)
    ensures r.None? <==> init.publishMessage.None?
  {
    match init.publishMessage
    case None => None
    case Some(info) => Some(if "short_code" in info.payload then info.payload["short_code"] else "")
  }

  /** The short code read through the nil-safe getters: "" without a
      publish message. */
  function ShortCode(init: InitiateRequest): (r: string)
    ensures ShortCodeAsWritten(init).Some? ==> r == ShortCodeAsWritten(init).value
    ensures init.publishMessage.None? ==> r == ""
  {
    if init.publishMessage.Some? && "short_code" in init.publishMessage.value.payload
    then init.publishMessage.value.payload["short_code"] else ""
  }

  /** The insert path dereferences a nil publish message whenever the
      initiating request was not in the cache. */
  lemma ShortCodeOnCacheMiss()
    ensures ShortCodeAsWritten(EmptyRequest).None?
    ensures ShortCode(EmptyRequest) == ""
  {
  }

  /** The row a callback inserts for a transaction the store does not hold,
      enriched from the initiating request `init`. As coded, the success
      flag is inverted and the merchant id is stored as the checkout id. */
  function CreatedByCallback(p: CallbackPayload, init: InitiateRequest): (r: Record)
    ensures r.succeeded == Yes <==> p.resultCode != 0
    ensures r.succeeded == Yes || r.succeeded == No
    ensures r.checkoutRequestId == NullIfEmpty(p.merchantRequestId)
    ensures r.merchantRequestId == NullIfEmpty(p.merchantRequestId)
    ensures r.processed == No && HasStatus(r, CallbackStatus(p))
    ensures r.mpesaReceiptId == NullIfEmpty(p.mpesaReceiptNumber)
    ensures r.shortCode == ShortCode(init) && r.initiatorId == init.initiatorId
    ensures r.phoneNumber == p.phoneNumber && r.transactionTime == Some(p.transTime)
  {
    Record(
      id := 0,
      initiatorId := init.initiatorId,
      initiatorCustomerReference := init.initiatorCustomerReference,
      initiatorCustomerNames := init.initiatorCustomerNames,
      phoneNumber := p.phoneNumber,
      amount := p.amount,
      shortCode := ShortCode(init),
      accountReference := init.accountReference,
      transactionDesc := NullIfEmpty(init.transactionDesc),
      merchantRequestId := NullIfEmpty(p.merchantRequestId),
      checkoutRequestId := NullIfEmpty(p.merchantRequestId),
      stkResponseDescription := Null,
      stkResponseCustomerMessage := Null,
      stkResponseCode := Null,
      resultCode := NullIfEmpty(IntToString(p.resultCode)),
      resultDescription := NullIfEmpty(p.resultDesc),
      mpesaReceiptId := NullIfEmpty(p.mpesaReceiptNumber),
      stkStatus := Str(StatusName(CallbackStatus(p))),
      source := Null,
      tag := Null,
      succeeded := if p.resultCode != 0 then Yes else No,
      processed := No,
      transactionTime := Some(p.transTime),
      createdAt := 0)
  }

  /** The inserted row contradicts its own status: it reads as succeeded
      exactly when its status is STK_FAILED, and its flag is always the
      opposite of the one the update path writes for the same callback. */
  lemma CreatedFlagContradictsStatus(p: CallbackPayload, init: InitiateRequest)
    ensures var r := CreatedByCallback(p, init);
      (r.succeeded == Yes <==> HasStatus(r, StkFailed)) &&
      r.succeeded != CallbackSucceeded(p)
  {
  }

  /** Whether the outcome is published: only when the initiating request
      asked for it, and with `onlyOnSuccess` only for a succeeded view. */
  predicate ShouldPublish(init: InitiateRequest, view: StkTransactionView) {
    init.publish && (!init.OnlyOnSuccess() || view.succeeded)
  }

  /** The publish request the callback sends to `PublishStkTransaction`. */
  function CallbackPublishRequest(init: InitiateRequest, view: StkTransactionView): (r: PublishRequest)
    ensures r.processedState == ProcessStateUnspecified
    ensures r.publishMessage.Some? && r.publishMessage.value.transactionInfo == Some(view)
    ensures r.publishMessage.value.ChannelName() == init.ChannelName()
  {
    PublishRequest(
      Some(PublishMessage(init.initiatorId, view.transactionId, view.mpesaReceiptId, view.phoneNumber,
                          init.publishMessage, Some(view))),
      ProcessStateUnspecified)
  }

  /** On the insert path an `onlyOnSuccess` publish happens exactly for a
      payment that failed. */
  lemma InsertPublishesFailures(p: CallbackPayload, init: InitiateRequest)
    requires init.publish && init.OnlyOnSuccess()
    ensures ShouldPublish(init, ToProto(Some(CreatedByCallback(p, init))).value) <==> p.resultCode != 0
  {
  }
}
