/**
 * The rules of the result poller: what a reply of the STK query API
 * decides for one stale transaction, and the row it writes.
 */
module Poll {
  import opened Common
  import opened Model

  /** `QueryStkResponse`; a field the reply leaves out is "". */
  datatype QueryResponse = QueryResponse(
    merchantRequestId: string,
    checkoutRequestId: string,
    responseCode: string,
    responseDescription: string,
    resultCode: string,
    resultDesc: string)

  datatype QueryBody = QueryUndecodable(reason: string) | QueryDecoded(response: QueryResponse)

  datatype PollReply = QueryPostFailed(reason: string) | QueryReply(contentType: string, body: QueryBody)

  /** What `updateSTKResult` does with a reply: fail (the error it returns),
      write the row, or skip a reply that is not JSON (logged, no error). */
  datatype PollOutcome = PollError(reason: string) | PollWrite(response: QueryResponse) | PollSkip

  /** The payment went through: result code "0" and a description that
      mentions "successfully" in any letter case. */
  predicate Succeeded(resp: QueryResponse) {
    resp.resultCode == "0" && Contains(ToLower(resp.resultDesc), "successfully")
  }

  function ResultStatus(resp: QueryResponse): (st: StkStatus)
    ensures st == ResultSuccess <==> Succeeded(resp)
    ensures st == ResultFailed <==> !Succeeded(resp)
  {
    if Succeeded(resp) then ResultSuccess else ResultFailed
  }

  function Decide(reply: PollReply): (o: PollOutcome)
    ensures o.PollWrite? <==> reply.QueryReply? && reply.body.QueryDecoded? &&
                              reply.body.response.merchantRequestId != "" &&
                              reply.body.response.checkoutRequestId != "" &&
                              reply.body.response.resultCode != "" &&
                              IsJsonContentType(reply.contentType)
    ensures o.PollWrite? ==> o.response == reply.body.response
    ensures reply.QueryReply? && reply.body.QueryDecoded? &&
            (reply.body.response.merchantRequestId == "" || reply.body.response.checkoutRequestId == "" ||
             reply.body.response.resultCode == "") ==>
              o == PollError("gotten error while posting to query stk API")
    ensures reply.QueryPostFailed? ==> o == PollError("failed to post stk query API: " + reply.reason)
    ensures reply.QueryReply? && reply.body.QueryUndecodable? ==>
              o == PollError("failed to decode mpesa response: " + reply.body.reason)
    ensures o.PollSkip? <==> reply.QueryReply? && reply.body.QueryDecoded? &&
                             reply.body.response.merchantRequestId != "" &&
                             reply.body.response.checkoutRequestId != "" &&
                             reply.body.response.resultCode != "" &&
                             !IsJsonContentType(reply.contentType)
  {
    match reply
    case QueryPostFailed(reason) => PollError("failed to post stk query API: " + reason)
    case QueryReply(ct, body) =>
      match body
      case QueryUndecodable(reason) => PollError("failed to decode mpesa response: " + reason)
      case QueryDecoded(resp) =>
        if resp.merchantRequestId == "" || resp.checkoutRequestId == "" || resp.resultCode == "" then
          PollError("gotten error while posting to query stk API")
        else if IsJsonContentType(ct) then PollWrite(resp)
        else PollSkip
  }

  /** `fmt.Sprintf("%s", ns)` of a `sql.NullString`: the struct printed
      field by field, the bool through the `%!s` verb error. */
  function PrintNullString(ns: NullString): string {
    "{" + ns.Text() + " %!s(bool=" + (if ns.Str? then "true" else "false") + ")}"
  }

  /** The synthesized receipt id "ONFON_<nanos>_<merchant id as printed>". */
  function SystemId(nanos: nat, merchant: NullString): (id: string)
    ensures IsPrefix("ONFON_", id)
  {
    "ONFON_" + NatToString(nanos) + "_" + PrintNullString(merchant)
  }

  /** The clock reading can be read back from a synthesized receipt id, so
      two polls at different instants never synthesize the same id. */
  lemma SystemIdNanos(nanos: nat, merchant: NullString)
    ensures LeadingNumber(SystemId(nanos, merchant)[6..]) == nanos
  {
    var digits := NatToString(nanos);
    var rest := "_" + PrintNullString(merchant);
    assert SystemId(nanos, merchant)[6..] == digits + rest;
    LeadingDigitsStop(digits, rest);
    NatToStringRoundTrip(nanos);
    DigitsOnlyLeading(digits);
  }

  lemma {:induction false} LeadingDigitsStop(digits: string, rest: string)
    requires forall i :: 0 <= i < |digits| ==> IsDigit(digits[i])
    requires |rest| > 0 && !IsDigit(rest[0])
    ensures LeadingDigits(digits + rest) == digits
  {
    if digits != [] {
      assert (digits + rest)[1..] == digits[1..] + rest;
      LeadingDigitsStop(digits[1..], rest);
    } else {
      assert digits + rest == rest;
    }
  }

  lemma SystemIdInjective(n1: nat, n2: nat, merchant: NullString)
    requires n1 != n2
    ensures SystemId(n1, merchant) != SystemId(n2, merchant)
  {
    SystemIdNanos(n1, merchant);
    SystemIdNanos(n2, merchant);
  }

  /** The row after a JSON reply: `Updates` with a map writes every listed
      column, so the receipt id is always replaced by the synthesized one. */
  function PollUpdate(rec: Record, resp: QueryResponse, systemId: string): (r: Record)
    ensures r.mpesaReceiptId == Str(systemId)
    ensures HasStatus(r, ResultStatus(resp))
    ensures r.succeeded == Yes <==> Succeeded(resp)
    ensures r.resultCode == Str(resp.resultCode) && r.resultDescription == Str(resp.resultDesc)
    ensures r.stkResponseDescription == Str(resp.responseDescription) && r.stkResponseCode == Str(resp.responseCode)
    ensures r.processed == rec.processed
    // nothing else changes
    ensures r.(stkResponseDescription := rec.stkResponseDescription, stkResponseCode := rec.stkResponseCode,
               resultDescription := rec.resultDescription, resultCode := rec.resultCode,
               mpesaReceiptId := rec.mpesaReceiptId, stkStatus := rec.stkStatus,
               succeeded := rec.succeeded) == rec
  {
    rec.(stkResponseDescription := Str(resp.responseDescription),
         stkResponseCode := Str(resp.responseCode),
         resultDescription := Str(resp.resultDesc),
         resultCode := Str(resp.resultCode),
         mpesaReceiptId := Str(systemId),
         stkStatus := Str(StatusName(ResultStatus(resp))),
         succeeded := if Succeeded(resp) then Yes else No)
  }

  /** A poll never leaves a row in SUBMITTED, and never touches `processed`. */
  lemma PollLeavesSubmitted(rec: Record, resp: QueryResponse, systemId: string)
    ensures !HasStatus(PollUpdate(rec, resp, systemId), RequestSubmited)
    ensures PollUpdate(rec, resp, systemId).processed == rec.processed
  {
  }

  /** A receipt a callback stored is lost to a later poll. */
  lemma PollOverwritesReceipt(rec: Record, resp: QueryResponse, systemId: string)
    requires rec.mpesaReceiptId.Str? && rec.mpesaReceiptId.s != systemId
    ensures PollUpdate(rec, resp, systemId).mpesaReceiptId != rec.mpesaReceiptId
  {
  }
}
