/**
 * The rules of the STK-push acknowledgment handler: what M-Pesa's reply to
 * the push request decides, and which columns each outcome writes.
 */
module Ack {
  import opened Common
  import opened Model

  /** A decoded JSON value, as far as the handler looks at it. */
  datatype JsonValue = JString(s: string) | JNull | JOther(printed: string)

  /** `fmt.Sprint(m[key])` for a decoded JSON object: a missing key and a
      JSON null both print as "<nil>". */
  function Print(fields: map<string, JsonValue>, key: string): (r: string)
    ensures key !in fields ==> r == "<nil>"
    ensures key in fields && fields[key].JString? ==> r == fields[key].s
  {
    if key !in fields then "<nil>"
    else match fields[key]
      case JString(s) => s
      case JNull => "<nil>"
      case JOther(printed) => printed
  }

  /** The body of a reply: a JSON object (an empty body decodes as the empty
      object), or a decoding error. */
  datatype ReplyBody = Undecodable(reason: string) | Object(fields: map<string, JsonValue>)

  /** What the push request brought back: a transport error, or a response
      with its content type and body. */
  datatype AckReply = PostFailed(reason: string) | AckResponse(contentType: string, body: ReplyBody)

  datatype AckOutcome = Accepted(checkoutId: string, fields: map<string, JsonValue>) | Rejected(reason: string)

  /** The handler's decision. The checks run in order: transport, decoding,
      an `errorMessage` field, the content type, a string `CheckoutRequestID`. */
  function Decide(reply: AckReply): (o: AckOutcome)
    ensures o.Accepted? <==>
              reply.AckResponse? && reply.body.Object? && "errorMessage" !in reply.body.fields &&
              IsJsonContentType(reply.contentType) &&
              "CheckoutRequestID" in reply.body.fields && reply.body.fields["CheckoutRequestID"].JString?
    ensures o.Accepted? ==> o.checkoutId == reply.body.fields["CheckoutRequestID"].s && o.fields == reply.body.fields
    ensures o.Rejected? ==> o.reason != ""
  {
    match reply
    case PostFailed(reason) => Rejected("failed to post stk request to mpesa API: " + reason)
    case AckResponse(ct, body) =>
      match body
      case Undecodable(reason) => Rejected("failed to decode mpesa response: " + reason)
      case Object(fields) =>
        if "errorMessage" in fields then
          Rejected("error happened while sending stk push: " + Print(fields, "errorMessage"))
        else if !IsJsonContentType(ct) then
          Rejected("incorrect response while initiating STK")
        else if "CheckoutRequestID" !in fields || !fields["CheckoutRequestID"].JString? then
          Rejected("stk request failed: missing CheckoutRequestID")
        else
          Accepted(fields["CheckoutRequestID"].s, fields)
  }

  /** Each of the three rejections the handler's own checks raise, with its text. */
  lemma RejectionReasons(ct: string, fields: map<string, JsonValue>)
    ensures "errorMessage" in fields ==>
              Decide(AckResponse(ct, Object(fields))) ==
              Rejected("error happened while sending stk push: " + Print(fields, "errorMessage"))
    ensures "errorMessage" !in fields && !IsJsonContentType(ct) ==>
              Decide(AckResponse(ct, Object(fields))) == Rejected("incorrect response while initiating STK")
    ensures "errorMessage" !in fields && IsJsonContentType(ct) && "CheckoutRequestID" !in fields ==>
              Decide(AckResponse(ct, Object(fields))) == Rejected("stk request failed: missing CheckoutRequestID")
  {
  }

  /** A column written by `Updates` with a struct: a `NullString{s, s != ""}`
      is the zero value when `s` is empty, and zero values are skipped. */
  function WriteUnlessEmpty(old_: NullString, s: string): (n: NullString)
    ensures s == "" ==> n == old_
    ensures s != "" ==> n == Str(s)
  {
    if s == "" then old_ else Str(s)
  }

  /** The row after an accepted acknowledgment at time `now`. */
  function AcceptedUpdate(rec: Record, fields: map<string, JsonValue>, now: int): (r: Record)
    ensures HasStatus(r, RequestSuccess)
    ensures r.succeeded == No && r.processed == No && r.transactionTime == Some(now)
    ensures r.checkoutRequestId == WriteUnlessEmpty(rec.checkoutRequestId, Print(fields, "CheckoutRequestID"))
    ensures r.merchantRequestId == WriteUnlessEmpty(rec.merchantRequestId, Print(fields, "MerchantRequestID"))
    ensures r.stkResponseDescription == WriteUnlessEmpty(rec.stkResponseDescription, Print(fields, "ResponseDescription"))
    ensures r.stkResponseCustomerMessage == WriteUnlessEmpty(rec.stkResponseCustomerMessage, Print(fields, "CustomerMessage"))
    ensures r.stkResponseCode == WriteUnlessEmpty(rec.stkResponseCode, Print(fields, "ResponseCode"))
    // nothing else changes
    ensures r.(merchantRequestId := rec.merchantRequestId, checkoutRequestId := rec.checkoutRequestId,
               stkResponseDescription := rec.stkResponseDescription,
               stkResponseCustomerMessage := rec.stkResponseCustomerMessage,
               stkResponseCode := rec.stkResponseCode, stkStatus := rec.stkStatus,
               succeeded := rec.succeeded, processed := rec.processed,
               transactionTime := rec.transactionTime) == rec
  {
    rec.(merchantRequestId := WriteUnlessEmpty(rec.merchantRequestId, Print(fields, "MerchantRequestID")),
         checkoutRequestId := WriteUnlessEmpty(rec.checkoutRequestId, Print(fields, "CheckoutRequestID")),
         stkResponseDescription := WriteUnlessEmpty(rec.stkResponseDescription, Print(fields, "ResponseDescription")),
         stkResponseCustomerMessage := WriteUnlessEmpty(rec.stkResponseCustomerMessage, Print(fields, "CustomerMessage")),
         stkResponseCode := WriteUnlessEmpty(rec.stkResponseCode, Print(fields, "ResponseCode")),
         stkStatus := Str(StatusName(RequestSuccess)),
         succeeded := No,
         processed := No,
         transactionTime := Some(now))
  }

  /** The row after a failed acknowledgment: the error text becomes the
      response description. */
  function RejectedUpdate(rec: Record, reason: string, now: int): (r: Record)
    requires reason != ""
    ensures HasStatus(r, RequestFailed)
    ensures r.stkResponseDescription == Str(reason)
    ensures r.succeeded == No && r.processed == No && r.transactionTime == Some(now)
    // nothing else changes
    ensures r.(stkResponseDescription := rec.stkResponseDescription, stkStatus := rec.stkStatus,
               succeeded := rec.succeeded, processed := rec.processed,
               transactionTime := rec.transactionTime) == rec
  {
    rec.(stkResponseDescription := Str(reason),
         stkStatus := Str(StatusName(RequestFailed)),
         succeeded := No,
         processed := No,
         transactionTime := Some(now))
  }

  /** After an accepted acknowledgment the row's checkout id is the one the
      request is cached under, so a later callback finds both. */
  lemma AcceptedKeepsCheckoutId(rec: Record, reply: AckReply, now: int)
    requires Decide(reply).Accepted?
    requires Decide(reply).checkoutId != ""
    ensures AcceptedUpdate(rec, Decide(reply).fields, now).checkoutRequestId == Str(Decide(reply).checkoutId)
  {
  }

  /** Whatever the reply, the handler leaves the row unprocessed and not
      succeeded, in REQUEST_SUCCESS exactly when the reply was accepted. */
  lemma OutcomeStatus(rec: Record, reply: AckReply, now: int)
    ensures var r := match Decide(reply)
                     case Accepted(_, fields) => AcceptedUpdate(rec, fields, now)
                     case Rejected(reason) => RejectedUpdate(rec, reason, now);
      r.succeeded == No && r.processed == No &&
      (HasStatus(r, RequestSuccess) <==> Decide(reply).Accepted?) &&
      (HasStatus(r, RequestFailed) <==> Decide(reply).Rejected?)
  {
  }
}
