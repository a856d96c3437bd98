/**
 * The request and response messages of the `StkPushV1` API, as far as the
 * lifecycle core reads or writes them. A nil message is `None`; the
 * generated getters (`GetChannelName`, `GetProcessed`, ...) are nil-safe and
 * read a missing message as its zero value.
 */
module Api {
  import opened Common
  import opened Model

  /** Where and when a completed transaction is published. */
  datatype PublishInfo = PublishInfo(
    onlyOnSuccess: bool,
    channelName: string,
    payload: map<string, string>)

  /** `InitiateSTKRequest`. The amount is a whole number of shillings. */
  datatype InitiateRequest = InitiateRequest(
    initiatorId: string,
    initiatorCustomerReference: string,
    initiatorCustomerNames: string,
    phone: string,
    amount: int,
    accountReference: string,
    transactionDesc: string,
    shortCode: string,
    publish: bool,
    publishMessage: Option<PublishInfo>)
  {
    function ChannelName(): string {
      if publishMessage.Some? then publishMessage.value.channelName else ""
    }

    function OnlyOnSuccess(): bool {
      publishMessage.Some? && publishMessage.value.onlyOnSuccess
    }
  }

  /** The zero `InitiateSTKRequest`: what the callback works with when the
      initiating request is not in the cache. */
  const EmptyRequest: InitiateRequest :=
    InitiateRequest("", "", "", "", 0, "", "", "", false, None)

  datatype InitiateResponse = InitiateResponse(progress: bool, message: string)

  datatype GetRequest = GetRequest(transactionId: nat, mpesaReceiptId: string)

  datatype ProcessedState = ProcessStateUnspecified | Processed | NotProcessed

  /** The listing order; `CreateTimestamp` orders by id. */
  datatype OrderField = CreateTimestamp | TransactionTimestamp

  datatype ListView = BasicView | OtherView

  datatype ListFilter = ListFilter(
    txDate: string,
    startTimestamp: int,
    endTimestamp: int,
    msisdns: seq<string>,
    mpesaReceipts: seq<string>,
    initiatorCustomerReferences: seq<string>,
    initiatorTransactionReferences: seq<string>,
    shortCodes: seq<string>,
    stkStatuses: seq<StkStatus>,
    processState: ProcessedState,
    orderField: OrderField)

  datatype ListRequest = ListRequest(
    pageToken: string,
    pageSize: int,
    filter: Option<ListFilter>,
    view: ListView)
  {
    /** `req.GetFilter().GetOrderField()`: the zero order without a filter. */
    function OrderBy(): OrderField {
      if filter.Some? then filter.value.orderField else CreateTimestamp
    }
  }

  datatype ListResponse = ListResponse(
    nextPageToken: string,
    stkTransactions: seq<StkTransactionView>,
    collectionCount: nat)

  datatype ProcessRequest = ProcessRequest(transactionId: nat, mpesaReceiptId: string, processed: bool)

  /** The message put on a publish channel. */
  datatype PublishMessage = PublishMessage(
    initiatorId: string,
    transactionId: nat,
    mpesaReceiptId: string,
    phoneNumber: string,
    publishInfo: Option<PublishInfo>,
    transactionInfo: Option<StkTransactionView>)
  {
    function ChannelName(): string {
      if publishInfo.Some? then publishInfo.value.channelName else ""
    }

    /** `GetTransactionInfo().GetProcessed()`. */
    function IsProcessed(): bool {
      transactionInfo.Some? && transactionInfo.value.processed
    }
  }

  datatype PublishRequest = PublishRequest(
    publishMessage: Option<PublishMessage>,
    processedState: ProcessedState)
}
