# M-Pesa STK push reconciler: a verified model of the transaction lifecycle

This project models the core of an M-Pesa STK-push service written in Go.
The service asks M-Pesa to show a payment prompt on a customer's phone. It
stores every attempt as a row of the `stk_transactions` table and moves that
row through its lifecycle:

- `InitiateSTK` validates the request, stores a `STK_REQUEST_SUBMITED` row
  and answers at once.
- A detached acknowledgment handler posts the push to M-Pesa. It records
  `STK_REQUEST_SUCCESS` or `STK_REQUEST_FAILED` and caches the initiating
  request in Redis under its checkout id for 15 minutes.
- The HTTP callback endpoint (`serveStkV1`) receives M-Pesa's result. It
  enriches the result with the cached request, updates the row that holds
  the checkout id or inserts a new row, and publishes the outcome to a
  Redis channel when the initiating request asked for it.
- A background poller (`updateSTKResults`) finds rows left in SUBMITTED for
  ten minutes, queries M-Pesa about each one and writes `STK_RESULT_SUCCESS`
  or `STK_RESULT_FAILED`.
- A background refresher keeps the OAuth access token current.
- The gRPC operations `GetStkTransaction`, `ListStkTransactions` (with
  Base64 page tokens), `ProcessStkTransaction` and `PublishStkTransaction`
  read and mark rows.

The model has one Dafny module per concern, and each takes the form of its
source:

- Pure rules are datatypes and functions: `Common`, `Base64`, `Dates`,
  `Model`, `Api`, `Options`, `Ack`, `Poll`, `Ingest`, `Listing`, `Paging`
  and `Worker`.
- The table is a class `Store.Database`. Its `rows` map and auto-increment
  `nextId` are updated in place, under the unique constraint on the M-Pesa
  receipt id.
- Redis is a class `Cache.Redis`. It holds keys with expiry, phone sets and
  a log of publications.
- The gRPC server is a class `Service.StkApiServer`. Its methods change the
  store, the cache and the access token.
- The callback endpoint is a class `Gateway.StkGateway`.

Some inputs the Go code reads from its environment become parameters:

- M-Pesa's replies to the push, to the token refresh and to the status
  query;
- the clock (`now`, and `clock(k)` for the k-th poll's nanosecond reading);
- the error Redis returns to a `PUBLISH`, and the message the database gives
  for a taken receipt;
- whether the caller is authenticated or an admin;
- the phone formatter.

Several behaviours are kept exactly as the code has them:

- The local `key` in `GetStkTransaction` and `ProcessStkTransaction` is
  never assigned. So the lookup and the update by transaction id address
  id 0, which no row has.
- A callback that inserts a row stores the success flag inverted. It also
  stores the merchant id as the checkout id.
- `ProcessStkTransaction` may turn a processed row back to "NO".
- The poller always overwrites the receipt id with a synthesized
  `ONFON_<nanos>_<merchant id>`. The merchant id is printed as Go prints a
  `sql.NullString` with `%s`.

Where the code and its description differ, the model follows the code:

- The refresh worker waits the same fixed interval after a failure. It does
  not back off exponentially.
- `processed` is not monotonic.
- `ValidateOptionSTK` never checks the query URL. Its empty `case` for the
  query URL ends the checks, so the three derived credentials are not
  checked either.

## Model

| member | source | states |
|---|---|---|
| Common.FirstVal | cmd/app/main.go:227-234 | the result is "" exactly when every value is empty; otherwise it is the first non-empty value |
| Common.NatToString | internal/stk/v1/stk.go:599-601 | `fmt.Sprint` of an id is a non-empty string of decimal digits |
| Common.NatToStringRoundTrip | internal/stk/v1/stk.go:482-486 | the decimal text of an id, compared with the integer `id` column, reads back as the same id |
| Common.StringBytesRoundTrip | internal/stk/v1/stk.go:607-611 | `[]byte(s)` then `string(bs)` gives back any ASCII text, which UTF-8 encodes one byte per character |
| Common.ToLower | internal/stk/v1/worker.go:184 | `strings.ToLower` on ASCII: the same length, each capital A-Z replaced by its small letter and every other character kept, so no capital is left |
| Common.BytesStringRoundTrip | internal/stk/v1/stk.go:473-477 | `string(bs)` then `[]byte(s)` gives back the same bytes |
| Base64.SextetRoundTrip | internal/stk/v1/stk.go:473-477 | every alphabet letter decodes to the sextet it encodes |
| Base64.Encode | internal/stk/v1/stk.go:149-156 | the standard encoding has 4 letters per started group of 3 bytes, none of them a newline |
| Base64.DecodeEncodeGroup | internal/stk/v1/stk.go:607-611 | one encoded group of 1-3 bytes decodes to those bytes, flagged as padded exactly when fewer than 3 |
| Base64.DecodeQuantaEncode | internal/stk/v1/stk.go:607-611 | decoding the quanta of an encoding gives back the bytes, by induction over groups |
| Base64.DecodeEncode | internal/stk/v1/stk.go:473-477 | `DecodeString(EncodeToString(bs)) == bs`: every token the service issues decodes |
| Base64.EncodeEmpty | internal/stk/v1/stk.go:607-611 | the encoding is empty exactly when the input is |
| Dates.ParseFullDate | internal/stk/v1/stk.go:624-626 | a parsed `YYYY-MM-DD` names a valid day of the proleptic Gregorian calendar |
| Dates.FormatFullDate | internal/stk/v1/stk.go:624-626 | a valid day prints in the `YYYY-MM-DD` shape |
| Dates.ParseFormat | internal/stk/v1/stk.go:620-632 | formatting a valid day and parsing it gives the day back |
| Dates.FormatParse | internal/stk/v1/stk.go:620-632 | parsing a string and formatting the day gives the string back: each day has one spelling |
| Dates.GetTime | internal/stk/v1/stk.go:620-632 | succeeds exactly on a valid full date, at midnight UTC (a multiple of 86400 seconds since the epoch); otherwise InvalidArgument "failed to parse date to time" |
| Dates.UnixEpochIsDayZero | internal/stk/v1/stk.go:620-632 | `getTime("1970-01-01")` is Unix time 0 |
| Dates.MarchFirstStep | internal/stk/v1/stk.go:620-632 | the year from one March 1 to the next has 366 days exactly when its February has 29 |
| Dates.NextDayStep | internal/stk/v1/stk.go:620-632 | the day count `getTime` scales by 86400 grows by exactly one from each valid day to the next, across month, February and year ends; with `UnixEpochIsDayZero` it counts days from the epoch |
| Model.NullIfEmpty | cmd/app/stk.go:195-200 | `sql.NullString{s, s != ""}` is NULL exactly for "" and its `.String` is `s` |
| Model.ParseStatus | internal/stk/v1/model.go:80 | a name the enum knows reads as the status with that name |
| Model.StatusNameRoundTrip | internal/stk/v1/model.go:80 | every status survives the trip through its stored name; a name reads as the zero status exactly when no status has it |
| Model.ToProto | internal/stk/v1/model.go:57-90 | a nil record is MissingField "stk payment"; otherwise each view field equals its column, field by field (a NULL text column as ""), the status is the one the status column names (zero when NULL or unknown), the flags are `== "YES"`, a NULL transaction time is the zero time, the creation time is copied, and the balance is always "" |
| Model.ViewStatus | internal/stk/v1/model.go:80 | the view reports the status written, and the zero status for a NULL or unknown status column |
| Store.FirstFrom | internal/stk/v1/stk.go:409-413 | the smallest selected id in a range, or none selected there |
| Store.Below | internal/stk/v1/stk.go:482-497 | `Order("id DESC").Limit(n)`: at most n selected ids below the bound, strictly descending, and any selected id left out lies below a full page |
| Store.BelowSize | internal/stk/v1/stk.go:577-583 | the scan returns min(n, number selected) ids |
| Store.Above | internal/stk/v1/worker.go:102-103 | the ascending scan: at most n selected ids above the cursor, strictly ascending, and any selected id left out lies above a full page |
| Store.AboveReadsOnlyRange | internal/stk/v1/worker.go:102-103 | the ascending scan depends only on the rows between cursor and bound |
| Store.Database.constructor | internal/stk/v1/model.go:15 | an empty table whose auto-increment counter starts at 1 |
| Store.Database.First | internal/stk/v1/stk.go:409-413 | `First(db, cond)` finds a row exactly when one is selected, and it is the selected row with the smallest id |
| Store.Database.Created | internal/stk/v1/model.go:37-41 | the stored row takes the fresh id and creation time, and the column default "NO" for empty flags; nothing else changes |
| Store.Database.Create | internal/stk/v1/stk.go:296-300 | inserts under the next id, or fails and changes nothing when the receipt id is taken (unique index) |
| Store.Database.Update | internal/stk/v1/stk.go:335-350 | replaces the row by id; no row is not an error; a receipt taken by another row fails and changes nothing |
| Store.Database.SetProcessedWhere | internal/stk/v1/stk.go:657-663 | sets `processed` on exactly the selected rows and leaves the rest |
| Cache.Redis.Get | cmd/app/stk.go:151-158 | a value is returned exactly when the key is present and not expired |
| Cache.Redis.Members | internal/stk/v1/stk.go:451-457 | `SMEMBERS`: the stored members for a present key, the empty set for a missing one |
| Cache.Redis.Set | internal/stk/v1/stk.go:361-364 | the value is readable for `ttl` seconds from `now` and expired afterwards; sets and publications unchanged |
| Cache.Redis.Publish | internal/stk/v1/stk.go:707-710 | appends one publication on the channel; keys unchanged |
| Options.ValidateOptions | internal/stk/v1/stk.go:55-74 | nil error exactly when all seven handles are present; otherwise MissingField, "sql db" first |
| Options.FirstEmpty | internal/stk/v1/stk.go:94-116 | the name of the first empty field; none exactly when all are non-empty |
| Options.ValidateOptionStkFirstEmpty | internal/stk/v1/stk.go:94-116 | `ValidateOptionSTK` reports exactly the first empty required option, in check order |
| Options.ValidateOptionStkIgnoresDerived | internal/stk/v1/stk.go:117-119 | the query URL, password, access token and basic token never change the verdict |
| Options.CredentialsDecode | internal/stk/v1/stk.go:148-156 | the basic token decodes to "key:secret" and the password to short code, pass key and timestamp |
| Options.RefreshInterval | internal/stk/v1/stk.go:171-174 | the configured refresh interval when positive, else 15 minutes |
| Options.KeysDistinct | internal/stk/v1/stk.go:192-199 | distinct checkout ids get distinct cache keys, and no request key is a push key |
| Ack.Print | internal/stk/v1/stk.go:336-340 | `fmt.Sprint` of a missing field is "<nil>", of a string field the string |
| Ack.Decide | internal/stk/v1/stk.go:307-333 | accepted exactly for a decoded reply without `errorMessage`, with JSON content type and a string `CheckoutRequestID`; a rejection carries a non-empty reason |
| Ack.RejectionReasons | internal/stk/v1/stk.go:321-366 | the texts of the error-message, content-type and missing-checkout-id rejections |
| Ack.WriteUnlessEmpty | internal/stk/v1/stk.go:335-340 | a struct `Updates` skips an empty NullString and writes a non-empty one |
| Ack.AcceptedUpdate | internal/stk/v1/stk.go:335-346 | REQUEST_SUCCESS, flags "NO", the time; the M-Pesa ids, response description, customer message and response code each written unless empty (else kept); no other column changes |
| Ack.RejectedUpdate | internal/stk/v1/stk.go:371-380 | REQUEST_FAILED with the error as response description, flags "NO", the time; no other column changes |
| Ack.AcceptedKeepsCheckoutId | internal/stk/v1/stk.go:337-358 | after acceptance the row's checkout id is the id the request is cached under |
| Ack.OutcomeStatus | internal/stk/v1/stk.go:302-385 | whatever the reply, the row is unprocessed and not succeeded, REQUEST_SUCCESS iff accepted, REQUEST_FAILED iff rejected |
| Poll.ResultStatus | internal/stk/v1/worker.go:184-189 | RESULT_SUCCESS exactly when the code is "0" and the description contains "successfully" in any case |
| Poll.Decide | internal/stk/v1/worker.go:166-210 | a failed post and an undecodable body are errors with Go's texts; a decoded reply missing an id or the result code is the "gotten error" failure; a complete reply is a write when its content type is JSON and otherwise the skip, which is only logged and returns no error |
| Poll.SystemId | internal/stk/v1/worker.go:191 | the synthesized receipt id starts with "ONFON_" |
| Poll.SystemIdNanos | internal/stk/v1/worker.go:191 | the clock reading can be read back from the synthesized id |
| Poll.SystemIdInjective | internal/stk/v1/worker.go:191 | polls at different instants synthesize different receipt ids |
| Poll.PollUpdate | internal/stk/v1/worker.go:196-204 | writes the reply's response description and code, result code and description (even when empty), the synthesized receipt, the result status, and succeeded iff the payment went through; `processed` and other columns unchanged |
| Poll.PollLeavesSubmitted | internal/stk/v1/worker.go:184-204 | a written row is never left SUBMITTED and keeps its `processed` flag |
| Poll.PollOverwritesReceipt | internal/stk/v1/worker.go:201 | a receipt a callback stored is replaced by the poll |
| Ingest.Validate | cmd/app/stk.go:99-140 | rejected (400) unless POST, one of the two JSON content types, decodable, and with checkout id, merchant id and description; reasons are non-empty |
| Ingest.CallbackStatus | cmd/app/stk.go:142-145 | STK_SUCCESS exactly for result code 0, else STK_FAILED |
| Ingest.CallbackSucceeded | cmd/app/stk.go:142-145 | "YES" exactly for result code 0, else "NO" |
| Ingest.UpdatedByCallback | cmd/app/stk.go:166-173 | the update keeps the stored receipt when the callback has none, writes status, flag, result code, result description (NULL when empty) and time, and changes nothing else (not `processed`) |
| Ingest.ShortCodeAsWritten | cmd/app/stk.go:193 | the unguarded read fails (nil dereference) exactly when the request has no publish message |
| Ingest.ShortCode | cmd/app/stk.go:193 | agrees with the unguarded read wherever that succeeds, and gives "" without a publish message |
| Ingest.ShortCodeOnCacheMiss | cmd/app/stk.go:193 | on a cache miss the unguarded read fails while the corrected one gives "" |
| Ingest.CreatedByCallback | cmd/app/stk.go:181-206 | the inserted row: flag "YES" iff result code non-zero, merchant id as checkout id, unprocessed, the callback's receipt, phone and time, the request's short code and initiator |
| Ingest.CreatedFlagContradictsStatus | cmd/app/stk.go:181-184 | the inserted row reads succeeded exactly when its status is STK_FAILED, opposite to what the update path writes |
| Ingest.CallbackPublishRequest | cmd/app/stk.go:225-234 | the publish request carries the view and the initiating request's channel, with no processed-state gate |
| Ingest.InsertPublishesFailures | cmd/app/stk.go:241-243 | on the insert path an only-on-success publish happens exactly for a failed payment |
| Listing.ClampPageSize | internal/stk/v1/stk.go:459-467 | non-positive sizes become 100; non-admins get at most 100; sizes in 1..100 are kept |
| Listing.NextToken | internal/stk/v1/stk.go:607-611 | a next-page token is never empty |
| Listing.TokenRoundTrip | internal/stk/v1/stk.go:472-486 | a token the service issued decodes to the id's decimal text and bounds the scan at exactly that id |
| Listing.TimeWindow | internal/stk/v1/stk.go:504-528 | the timestamp range when non-empty, else the whole day `txDate` names (or its parse error), else no window |
| Listing.ListQuery | internal/stk/v1/stk.go:441-569 | succeeds exactly when the size is not negative, the token (if any) is Base64, the time window resolves and no transaction-reference filter is given; the failures in Go's order with its errors ("page size", "failed to parse page token", the date error); the size is `ClampPageSize`'s; count only on a first basic-view page; a first page starts at the top and a later one below its token's id; filter, allowed phones and window kept |
| Listing.NextRequestResumes | internal/stk/v1/stk.go:469-486 | following a token runs the same query, resumed strictly below the named row, without the count |
| Listing.PagesDoNotOverlap | internal/stk/v1/stk.go:585-611 | the next page holds only rows below the whole current page, and no selected row is skipped |
| Paging.PageCarriesIds | internal/stk/v1/stk.go:585-611 | the page's views carry the fetched ids in order and the token names the last of them |
| Paging.ListedPageSize | internal/stk/v1/stk.go:585-611 | a page holds min(page size, selected rows) rows and has a token exactly when more rows are selected than fit |
| Paging.ListedPageRows | internal/stk/v1/stk.go:585-611 | the rows of a page are selected rows below the cursor, in strictly descending id order, and the token names the last |
| Worker.RefreshOutcome | internal/stk/v1/worker.go:37-67 | a new token exactly for a 200 with a decodable body, `fmt.Sprint` of `access_token`; the error texts of the three failures (transport, status, decoding) |
| Worker.EmptyBodyGivesNilToken | internal/stk/v1/worker.go:58-64 | an empty 200 body sets the token to "<nil>", which passes the poller's empty-token guard |
| Worker.TokenAfterFailures | internal/stk/v1/worker.go:20-35 | a run of failed refreshes keeps the token |
| Worker.TokenAfterIsLastSuccess | internal/stk/v1/worker.go:20-35 | after a run the token is the one the last successful refresh brought |
| Worker.FirstScanIsEligible | internal/stk/v1/worker.go:102-103 | the first scan (cursor 0) selects exactly the rows stale at the start |
| Worker.PolledRowsEffect | internal/stk/v1/worker.go:191-207 | a poll changes only the polled row, only when it writes; the row leaves SUBMITTED with the synthesized receipt, keeping `processed` and creation time |
| Worker.PolledAllFrame | internal/stk/v1/worker.go:114-135 | rows that were not polled keep their values |
| Worker.PolledAllAbove | internal/stk/v1/worker.go:114-135 | polling rows up to the cursor leaves every row above it as it was |
| Worker.CountAnswered | internal/stk/v1/worker.go:126-133 | the count of answered polls never exceeds the number of polls |
| Worker.CountAnsweredLast | internal/stk/v1/worker.go:126-133 | one more poll adds one to the count exactly when it returned no error |
| Worker.AscendingPage | internal/stk/v1/worker.go:102-103 | an ascending page holds the smallest initially stale ids above the cursor, as they were, and leaves out only ids above a full page |
| Worker.FirstPageMisses | internal/stk/v1/worker.go:102-115 | with more stale rows than a page and one, the first page as written is full and some stale row lies below all of it |
| Worker.PolledUpToAppend | internal/stk/v1/worker.go:114-115 | polling an ascending page moves the cursor to its last id, keeping "polled = exactly the stale rows up to the cursor, in id order" |
| Worker.LastPageCovers | internal/stk/v1/worker.go:108-110 | a short page leaves no stale row above its last id |
| Service.ValidateInitiate | internal/stk/v1/stk.go:214-227 | valid exactly with initiator, phone, account reference, positive amount, and a channel when publishing; the field names in check order |
| Service.WithShortCode | internal/stk/v1/stk.go:249-259 | the request gains a publish message whose payload maps "short_code" to the short code, keeping other keys, channel and flags |
| Service.CachedRequestCarriesShortCode | internal/stk/v1/stk.go:259 | a request cached by the handler gives the callback its short code, even through the unguarded read |
| Service.SubmittedRecord | internal/stk/v1/stk.go:280-293 | the inserted row is SUBMITTED, with no M-Pesa ids or receipt, the request's fields and the time |
| Service.SubmittedRowIsPending | internal/stk/v1/stk.go:280-296 | the stored row reads as submitted, unprocessed and not succeeded |
| Service.AckRow | internal/stk/v1/stk.go:302-385 | after the handler the row is unprocessed and not succeeded; REQUEST_SUCCESS iff accepted and cached, else REQUEST_FAILED with the reason; id, receipt and creation time kept |
| Service.PushBodyFor | internal/stk/v1/stk.go:229-245 | the short code is paid, the formatted phone pays, the description defaults to "NA" |
| Service.NoRowWithIdZero | internal/stk/v1/stk.go:409-410 | no row has id 0, so a lookup by the never-assigned key finds nothing |
| Service.ProcessedFlag | internal/stk/v1/stk.go:652-655 | "YES" exactly for a true flag, "NO" otherwise |
| Service.StkApiServer.constructor | internal/stk/v1/stk.go:148-161 | the server holds the options with the derived basic token and password |
| Service.StkApiServer.InitiateStk | internal/stk/v1/stk.go:210-300 | an invalid request is rejected and writes nothing; a valid one inserts exactly one SUBMITTED row under the next id and returns "Processing" with the push it hands on |
| Service.StkApiServer.HandleAck | internal/stk/v1/stk.go:302-385 | only the pushed row changes, to `AckRow`; the request is cached under its checkout id for 15 minutes exactly on acceptance without a cache error |
| Service.StkApiServer.GetStkTransaction | internal/stk/v1/stk.go:393-424 | missing fields rejected; any lookup by id fails NotFound; by receipt, found exactly when a row has it, viewed by `ToProto` |
| Service.StkApiServer.ListStkTransactions | internal/stk/v1/stk.go:432-618 | unauthenticated or missing request rejected; query errors returned; otherwise the response is the listed page of the query |
| Service.StkApiServer.RunQuery | internal/stk/v1/stk.go:567-617 | the response is the page read from the `id DESC` scan of a page and one, with the count when wanted |
| Service.StkApiServer.ReadPage | internal/stk/v1/stk.go:585-611 | the loop yields the views of the first page-size fetched rows and a token naming the last exactly when a row beyond was fetched |
| Service.StkApiServer.ProcessStkTransaction | internal/stk/v1/stk.go:634-672 | by id changes nothing; by receipt sets `processed` to the flag (possibly back to "NO") on exactly the rows with that receipt |
| Service.StkApiServer.PublishStkTransaction | internal/stk/v1/stk.go:674-730 | publishes once exactly when there is a channel and the processed-state gate passes; a Redis error is returned; no channel is success without publishing |
| Service.StkApiServer.UpdateAccessToken | internal/stk/v1/worker.go:37-67 | a successful refresh replaces the token, any failure keeps it and is returned |
| Service.StkApiServer.UpdateAccessTokenWorker | internal/stk/v1/worker.go:20-35 | the token after the run is the last successful one, with a fixed wait between refreshes |
| Service.StkApiServer.UpdateStkResult | internal/stk/v1/worker.go:143-214 | the table becomes the one-poll effect; an error exactly when the reply decides one |
| Service.StkApiServer.DispatchPage | internal/stk/v1/worker.go:112-137 | polling a page in order extends the table effect and the answered count by that page |
| Service.StkApiServer.UpdateStkResultsAsWritten | internal/stk/v1/worker.go:86-141 | with more stale rows than a page and one, some stale row is never polled and keeps its value |
| Service.StkApiServer.UpdateStkResults | internal/stk/v1/worker.go:86-141 | every row stale at the start is polled exactly once, in id order, as it was; the count is the answered polls |
| Service.StkApiServer.PollPageAscending | internal/stk/v1/worker.go:101-138 | one pass keeps "polled = the stale rows up to the cursor"; a short page leaves none above |
| Service.StkApiServer.PollPageDescending | internal/stk/v1/worker.go:101-138 | one pass as written; once the first page is full, a stale row below it stays unpolled |
| Service.StkApiServer.ScanDescending | internal/stk/v1/worker.go:102-106 | the page query as written: stale rows above the cursor, `id DESC`, a page and one |
| Service.StkApiServer.ScanAscending | internal/stk/v1/worker.go:102-106 | the corrected page query: the smallest initially stale ids above the cursor, as they were |
| Gateway.CallbackRow | cmd/app/stk.go:161-211 | the stored row updated by the callback, or the row the insert stores |
| Gateway.CallbackPublications | cmd/app/stk.go:223-248 | one publication exactly when asked for, success-gated, with a channel, and Redis accepts it; it carries the view |
| Gateway.RetryAfterInsertFails | cmd/app/stk.go:197-209 | after an insert whose merchant id differs from the checkout id, a retry takes the insert path again and breaks the unique receipt constraint |
| Gateway.StkGateway.constructor | cmd/app/stk.go:63-65 | the gateway serves over the given service |
| Gateway.StkGateway.ServeStkV1 | cmd/app/stk.go:87-256 | 400 for an invalid callback and nothing changes; 500 with the store's message on a receipt clash and nothing changes; else 200, the row updated or inserted, and the publications (with the corrected short-code read: where Go panics on an insert with no cached request, see Findings) |
| Gateway.StkGateway.Initiator | cmd/app/stk.go:147-159 | the cached initiating request, or an empty one on a miss or bad bytes |
| Gateway.StkGateway.Upsert | cmd/app/stk.go:161-215 | update the row with the checkout id or insert one under the next id; a clash fails and changes nothing |
| Gateway.StkGateway.PublishOutcome | cmd/app/stk.go:223-248 | the publications are exactly `CallbackPublications`; keys unchanged |

## Left out

- Concurrency: the acknowledgment goroutine, the poller's goroutines with their semaphore of 5, WaitGroup and mutex. The handler is a method called after `InitiateStk`, and each page is polled sequentially in page order.
- The workers' timing (the 20-second start delay, the intervals, context cancellation). A refresh run is a sequence of replies, and a poll run is one call of `UpdateStkResults`.
- The clock. The poll cutoff is fixed per run, and each poll's `time.Now().UnixNano()` is `clock(k)`.
- M-Pesa's replies are parameters (`query` maps a polled row to its reply). HTTP requests, JSON and proto marshalling and request dumps are not modelled.
- Database errors other than the unique receipt constraint: "failed to get stk transaction", "request failed" from the count and the find, and "failed to process stk transaction". The store fails only on the unique receipt index, so "failed to save stk" is returned only for a taken receipt.
- Redis errors other than a `PUBLISH` error: the `SMEMBERS` error that `ListStkTransactions` returns as Internal "request failed" (internal/stk/v1/stk.go:450-457), and the `SET` error of the acknowledgment handler (internal/stk/v1/stk.go:361-364). `SMEMBERS` always answers and `SET` always succeeds; a failed `GET` in the callback handler is a miss, as in Go.
- A `proto.Unmarshal` failure of the cached request is modelled as the empty request. Go would keep a partly filled one.
- The `w.Write` error at the end of the callback handler, `httputils.DumpRequest`, and `ServeStkV1`'s logging.
- `validateOptions` and `NewSTKGateway` of the gateway: auth token generation is outside the model.
- `NewStkAPI`'s table migration, its goroutine starts and the `processWorker` it may start. `processWorker` is not part of this model.
- Authentication and authorization are booleans passed to each operation. The auth API is not modelled.
- `formatutil.FormatPhoneKE` is a function parameter of the server; its rules are not modelled.
- `TableName` and the table prefix.
- Timestamps are Unix seconds. `UpdatedAt` is not modelled; `CreatedAt` is the insert time `now`.
- Common.StringBytesRoundTrip: text is ASCII throughout the model (credentials, page tokens, content types, result descriptions). Go's `[]byte(s)` is UTF-8, so a character from 128 up is more than one byte, and `StringToBytes` agrees with Go only on ASCII text.
- Common.ToLower: lower-cases ASCII capitals only. Go's `strings.ToLower` also maps other capitals (U+0130, for instance), so `IsJsonContentType` and `Poll.Succeeded` agree with Go only on ASCII headers and descriptions.
- Listing.CursorBound: reads a page token's text by its leading digits. MySQL compares the text with the integer `id` column as a double, so a hand-made token such as "12.5", "1e3", " 12" or "-5" bounds the scan differently. Every token the service issues is a plain numeral, on which the two agree (`Listing.TokenRoundTrip`).
- Poll.PollUpdate: writes the values as if the database stored them as given. Go passes the bool `succeeded` to an `enum('YES','NO')` column, where true is 'YES' but false is no member. The synthesized receipt, 43 characters plus the merchant request id for a 19-digit clock reading, exceeds the `varchar(50)` column once that id has 8 or more characters. Under MySQL's strict mode either makes the UPDATE fail; the failure is only logged, so the row stays SUBMITTED and is polled again on the next run. Outside strict mode a false flag is stored as '' (read as not succeeded) and the receipt is cut to 50 characters.
- Poll.PollLeavesSubmitted: holds for an UPDATE the database accepts as given (see `Poll.PollUpdate` above).
- Worker.PolledRowsEffect: the same condition as `Poll.PollLeavesSubmitted`.
- Worker.RefreshOutcome: reads every transport error as the "request failed" outcome. In Go a transport error that wraps `io.EOF` passes the check at internal/stk/v1/worker.go:48 with a nil response, and reading its status at line 54 panics and ends the process.
- Poll.Decide: has no reply for a JSON body of `null`. In Go that body sets the decoded response pointer to nil, and the field checks at internal/stk/v1/worker.go:180 panic and end the process.
- Gateway.StkGateway.ServeStkV1: uses the corrected short-code read. On an insert with no cached request, Go panics at cmd/app/stk.go:193 (see Findings); the handler has no `recover`, so `net/http` drops the connection with no reply and no row is written.
- MySQL column behaviour: strings are compared exactly, whereas the filters and the unique receipt index compare under MySQL's case-insensitive collation. The amount is kept as the text given, whereas the column is `float(10)`. The `varchar` widths are not enforced.
- Service.StkApiServer.ListStkTransactions: requires CREATE_TIMESTAMP ordering. TRANSACTION_TIMESTAMP ordering compares RFC 3339 time text with a nullable datetime column, and is not modelled.
- Service.StkApiServer.UpdateAccessTokenWorker: requires at least one reply, since the worker always refreshes once before it can be cancelled.

## Findings

| source | as written | input that shows it | evidently intended | confidence | as-written member | corrected member |
|---|---|---|---|---|---|---|
| cmd/app/stk.go:193 | the insert path reads `initReq.PublishMessage.Payload["short_code"]` without the nil-safe getter | a callback whose checkout id has no cached request: `initReq` stays empty, `PublishMessage` is nil, the handler panics | read the short code through the getters, giving "" when there is no publish message | not executed | Ingest.ShortCodeOnCacheMiss | Ingest.ShortCode |
| internal/stk/v1/worker.go:102-115 | each page is scanned `id DESC` above the cursor `ID`, and `ID` ends at the page's smallest id | 1002 stale rows: the first page holds the 1001 largest ids, the cursor moves to the smallest of them, and the next scan (`id >` cursor) never reaches the row below it | scan in ascending id order so the cursor ends at the page's largest id, and every stale row is polled once | not executed | Service.StkApiServer.UpdateStkResultsAsWritten | Service.StkApiServer.UpdateStkResults |
