/**
 * The stored STK transaction (`STKTransaction`), its lifecycle status names,
 * and `ToProto`, its projection to the API view.
 */
module Model {
  import opened Common

  /** A nullable VARCHAR column. Every write in the service stores either a
      string marked valid or `{s, s != ""}`, so a NULL column is exactly a
      `NullString` whose `Valid` is false and whose `String` is "". */
  datatype NullString = Null | Str(s: string) {
    /** The `.String` component: "" for NULL. */
    function Text(): string {
      if Str? then s else ""
    }
  }

  /** `sql.NullString{String: s, Valid: s != ""}`. */
  function NullIfEmpty(s: string): (n: NullString)
    ensures n.Text() == s
    ensures n.Null? <==> s == ""
  {
    if s == "" then Null else Str(s)
  }

  // The values of the Succeeded and Processed columns (enum('YES','NO')).
  const Yes: string := "YES"
  const No: string := "NO"

  /** The lifecycle status of a transaction, as the API enum `StkStatus`.
      `StatusZero` stands for the enum's zero value, which is none of the
      seven statuses the service writes. */
  datatype StkStatus =
    | StatusZero
    | RequestSubmited
    | RequestSuccess
    | RequestFailed
    | StkSuccess
    | StkFailed
    | ResultSuccess
    | ResultFailed

  /** The enum name stored in the `stk_status` column (`StkStatus.String()`);
      "SUBMITED" is the enum's own spelling. */
  function StatusName(st: StkStatus): string
    requires st != StatusZero
  {
    match st
    case RequestSubmited => "STK_REQUEST_SUBMITED"
    case RequestSuccess => "STK_REQUEST_SUCCESS"
    case RequestFailed => "STK_REQUEST_FAILED"
    case StkSuccess => "STK_SUCCESS"
    case StkFailed => "STK_FAILED"
    case ResultSuccess => "STK_RESULT_SUCCESS"
    case ResultFailed => "STK_RESULT_FAILED"
  }

  /** `StkStatus(StkStatus_value[name])`: the status a name denotes; a name
      the enum does not know reads as the zero value. */
  function ParseStatus(name: string): (st: StkStatus)
    ensures st != StatusZero ==> StatusName(st) == name
  {
    if name == "STK_REQUEST_SUBMITED" then RequestSubmited
    else if name == "STK_REQUEST_SUCCESS" then RequestSuccess
    else if name == "STK_REQUEST_FAILED" then RequestFailed
    else if name == "STK_SUCCESS" then StkSuccess
    else if name == "STK_FAILED" then StkFailed
    else if name == "STK_RESULT_SUCCESS" then ResultSuccess
    else if name == "STK_RESULT_FAILED" then ResultFailed
    else StatusZero
  }

  /** Every named status survives the trip through its stored name, and a
      string reads as the zero value exactly when no status has it as name. */
  lemma StatusNameRoundTrip(st: StkStatus, name: string)
    ensures st != StatusZero ==> ParseStatus(StatusName(st)) == st
    ensures ParseStatus(name) == StatusZero <==>
              forall s: StkStatus :: s != StatusZero ==> StatusName(s) != name
  {
    if ParseStatus(name) != StatusZero {
      assert StatusName(ParseStatus(name)) == name;
    }
  }

  /** One row of the `stk_transactions` table. Times are Unix seconds;
      `transactionTime` is a nullable DATETIME. */
  datatype Record = Record(
    id: nat,
    initiatorId: string,
    initiatorCustomerReference: string,
    initiatorCustomerNames: string,
    phoneNumber: string,
    amount: string,
    shortCode: string,
    accountReference: string,
    transactionDesc: NullString,
    merchantRequestId: NullString,
    checkoutRequestId: NullString,
    stkResponseDescription: NullString,
    stkResponseCustomerMessage: NullString,
    stkResponseCode: NullString,
    resultCode: NullString,
    resultDescription: NullString,
    mpesaReceiptId: NullString,
    stkStatus: NullString,
    source: NullString,
    tag: NullString,
    succeeded: string,
    processed: string,
    transactionTime: Option<int>,
    createdAt: int)

  /** The record whose status column holds the name of `st`. */
  predicate HasStatus(r: Record, st: StkStatus)
    requires st != StatusZero
  {
    r.stkStatus == Str(StatusName(st))
  }

  /** A zero `time.Time` read as Unix seconds (0001-01-01T00:00:00Z). */
  const ZeroTimeUnix: int := -62135596800

  /** The API view of a transaction (`stk.StkTransaction`). */
  datatype StkTransactionView = StkTransactionView(
    initiatorId: string,
    transactionId: nat,
    initiatorCustomerReference: string,
    initiatorCustomerNames: string,
    shortCode: string,
    accountReference: string,
    amount: string,
    phoneNumber: string,
    transactionDesc: string,
    merchantRequestId: string,
    checkoutRequestId: string,
    stkResponseDescription: string,
    stkResponseCode: string,
    stkResultCode: string,
    stkResultDesc: string,
    mpesaReceiptId: string,
    balance: string,
    status: StkStatus,
    source: string,
    tag: string,
    succeeded: bool,
    processed: bool,
    transactionTimestamp: int,
    createTimestamp: int)

  /** `ToProto`: a missing record is an error; otherwise the view reads the
      flags as booleans, NULL columns as "", unknown status names as the
      zero status, and never fills in a balance. */
  function ToProto(db: Option<Record>): (r: Result<StkTransactionView>)
    ensures db.None? <==> r.Failure?
    ensures db.None? ==> r.error == MissingField("stk payment")
    ensures db.Some? ==> var v, rec := r.value, db.value;
      && v.transactionId == rec.id
      && v.initiatorId == rec.initiatorId && v.phoneNumber == rec.phoneNumber
      && v.amount == rec.amount && v.shortCode == rec.shortCode
      && v.accountReference == rec.accountReference
      && v.initiatorCustomerReference == rec.initiatorCustomerReference
      && v.initiatorCustomerNames == rec.initiatorCustomerNames
      && v.transactionDesc == rec.transactionDesc.Text()
      && v.merchantRequestId == rec.merchantRequestId.Text()
      && v.checkoutRequestId == rec.checkoutRequestId.Text()
      && v.mpesaReceiptId == rec.mpesaReceiptId.Text()
      && v.stkResponseDescription == rec.stkResponseDescription.Text()
      && v.stkResponseCode == rec.stkResponseCode.Text()
      && v.stkResultCode == rec.resultCode.Text()
      && v.stkResultDesc == rec.resultDescription.Text()
      && v.source == rec.source.Text() && v.tag == rec.tag.Text()
      && (rec.mpesaReceiptId.Null? ==> v.mpesaReceiptId == "")
      && (rec.checkoutRequestId.Null? ==> v.checkoutRequestId == "")
      && (v.status != StatusZero ==> HasStatus(rec, v.status))
      && (v.succeeded <==> rec.succeeded == Yes)
      && (v.processed <==> rec.processed == Yes)
      && v.balance == ""
      && (rec.transactionTime.Some? ==> v.transactionTimestamp == rec.transactionTime.value)
      && (rec.transactionTime.None? ==> v.transactionTimestamp == ZeroTimeUnix)
      && v.createTimestamp == rec.createdAt
  {
    match db
    case None => Failure(MissingField("stk payment"))
    case Some(rec) =>
      Success(StkTransactionView(
        initiatorId := rec.initiatorId,
        transactionId := rec.id,
        initiatorCustomerReference := rec.initiatorCustomerReference,
        initiatorCustomerNames := rec.initiatorCustomerNames,
        shortCode := rec.shortCode,
        accountReference := rec.accountReference,
        amount := rec.amount,
        phoneNumber := rec.phoneNumber,
        transactionDesc := rec.transactionDesc.Text(),
        merchantRequestId := rec.merchantRequestId.Text(),
        checkoutRequestId := rec.checkoutRequestId.Text(),
        stkResponseDescription := rec.stkResponseDescription.Text(),
        stkResponseCode := rec.stkResponseCode.Text(),
        stkResultCode := rec.resultCode.Text(),
        stkResultDesc := rec.resultDescription.Text(),
        mpesaReceiptId := rec.mpesaReceiptId.Text(),
        balance := "",
        status := ParseStatus(rec.stkStatus.Text()),
        source := rec.source.Text(),
        tag := rec.tag.Text(),
        succeeded := rec.succeeded == Yes,
        processed := rec.processed == Yes,
        transactionTimestamp := if rec.transactionTime.Some? then rec.transactionTime.value else ZeroTimeUnix,
        createTimestamp := rec.createdAt))
  }

  /** The view reports the status a record was written with, and the zero
      status for a record whose status column is NULL or holds an unknown name. */
  lemma ViewStatus(rec: Record, st: StkStatus)
    requires st != StatusZero
    ensures HasStatus(rec, st) ==> ToProto(Some(rec)).value.status == st
    ensures (forall s: StkStatus :: s != StatusZero ==> !HasStatus(rec, s)) ==>
              ToProto(Some(rec)).value.status == StatusZero
  {
    StatusNameRoundTrip(st, rec.stkStatus.Text());
    var parsed := ParseStatus(rec.stkStatus.Text());
    if parsed != StatusZero && rec.stkStatus.Str? {
      assert HasStatus(rec, parsed);
    }
  }
}
