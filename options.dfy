/**
 * Service options: their validation, the credentials derived from them,
 * the access-token refresh interval, and the cache keys.
 */
module Options {
  import opened Common
  import Base64

  /** `OptionSTK`; the last three fields are the unexported ones the service
      fills in itself. */
  datatype OptionStk = OptionStk(
    accessTokenUrl: string,
    passKey: string,
    consumerKey: string,
    consumerSecret: string,
    businessShortCode: string,
    accountReference: string,
    timestamp: string,
    callBackUrl: string,
    postUrl: string,
    queryUrl: string,
    password: string,
    accessToken: string,
    basicToken: string)

  /** `Options`; a handle (database, Redis, logger, auth API, HTTP client)
      is present or nil. Durations are in seconds. */
  datatype ServiceOptions = ServiceOptions(
    sqlDb: bool,
    redisDb: bool,
    logger: bool,
    authApi: bool,
    httpClient: bool,
    optionStk: Option<OptionStk>,
    updateAccessTokenDuration: int,
    allowQueryStatus: bool,
    systemIdPrefix: string,
    publishProcessChannel: string)

  /** `ValidateOptions`: `None` is a nil error. */
  function ValidateOptions(opt: Option<ServiceOptions>): (err: Option<Error>)
    ensures err.None? <==> (opt.Some? && opt.value.sqlDb && opt.value.redisDb && opt.value.logger &&
                           opt.value.authApi && opt.value.httpClient && opt.value.optionStk.Some?)
    ensures err.Some? ==> err.value.MissingField?
    ensures opt.Some? && !opt.value.sqlDb ==> err == Some(MissingField("sql db"))
  {
    if opt.None? then Some(MissingField("options"))
    else if !opt.value.sqlDb then Some(MissingField("sql db"))
    else if !opt.value.redisDb then Some(MissingField("redis db"))
    else if !opt.value.logger then Some(MissingField("logger"))
    else if !opt.value.authApi then Some(MissingField("auth API"))
    else if !opt.value.httpClient then Some(MissingField("http client"))
    else if opt.value.optionStk.None? then Some(MissingField("stk options"))
    else None
  }

  /** `ValidateOptionSTK`: the first empty required option, in the order the
      checks run. */
  function ValidateOptionStk(opt: Option<OptionStk>): (err: Option<Error>)
  {
    if opt.None? then Some(MissingField("stk options"))
    else
      var o := opt.value;
      if o.accessTokenUrl == "" then Some(MissingField("access token url"))
      else if o.consumerKey == "" then Some(MissingField("consumer key"))
      else if o.consumerSecret == "" then Some(MissingField("consumer secret"))
      else if o.businessShortCode == "" then Some(MissingField("business short code"))
      else if o.accountReference == "" then Some(MissingField("account reference"))
      else if o.timestamp == "" then Some(MissingField("timestamp"))
      else if o.passKey == "" then Some(MissingField("pass key"))
      else if o.callBackUrl == "" then Some(MissingField("callback url"))
      else if o.postUrl == "" then Some(MissingField("post url"))
      else None
  }

  /** The required options as (field name, value) pairs, in check order. */
  function RequiredStkFields(o: OptionStk): seq<(string, string)> {
    [("access token url", o.accessTokenUrl), ("consumer key", o.consumerKey),
     ("consumer secret", o.consumerSecret), ("business short code", o.businessShortCode),
     ("account reference", o.accountReference), ("timestamp", o.timestamp),
     ("pass key", o.passKey), ("callback url", o.callBackUrl), ("post url", o.postUrl)]
  }

  /** The name of the first pair whose value is empty. */
  function FirstEmpty(fields: seq<(string, string)>): (r: Option<string>)
    ensures r.None? <==> forall i :: 0 <= i < |fields| ==> fields[i].1 != ""
    ensures r.Some? ==> exists i :: 0 <= i < |fields| && fields[i].1 == "" && fields[i].0 == r.value &&
                                    forall j :: 0 <= j < i ==> fields[j].1 != ""
  {
    if |fields| == 0 then None
    else if fields[0].1 == "" then Some(fields[0].0)
    else
      var r := FirstEmpty(fields[1..]);
      assert forall i :: 1 <= i < |fields| ==> fields[i] == fields[1..][i - 1];
      r
  }

  /** `ValidateOptionSTK` reports exactly the first empty required option. */
  lemma ValidateOptionStkFirstEmpty(o: OptionStk)
    ensures ValidateOptionStk(Some(o)) ==
              match FirstEmpty(RequiredStkFields(o))
              case None => None
              case Some(name) => Some(MissingField(name))
  {
    var f := RequiredStkFields(o);
    var r := FirstEmpty(f);
    if r.Some? {
      var i :| 0 <= i < |f| && f[i].1 == "" && f[i].0 == r.value &&
               forall j :: 0 <= j < i ==> f[j].1 != "";
      assert i < 9;
      if i >= 1 { assert f[0].1 != ""; }
      if i >= 2 { assert f[1].1 != ""; }
      if i >= 3 { assert f[2].1 != ""; }
      if i >= 4 { assert f[3].1 != ""; }
      if i >= 5 { assert f[4].1 != ""; }
      if i >= 6 { assert f[5].1 != ""; }
      if i >= 7 { assert f[6].1 != ""; }
      if i >= 8 { assert f[7].1 != ""; }
    } else {
      assert f[0].1 != "" && f[1].1 != "" && f[2].1 != "" && f[3].1 != "" && f[4].1 != "";
      assert f[5].1 != "" && f[6].1 != "" && f[7].1 != "" && f[8].1 != "";
    }
  }

  /** The query URL and the three derived credentials never decide whether
      the options are valid. */
  lemma ValidateOptionStkIgnoresDerived(o: OptionStk, queryUrl: string, password: string,
                                        accessToken: string, basicToken: string)
    ensures ValidateOptionStk(Some(o)) ==
              ValidateOptionStk(Some(o.(queryUrl := queryUrl, password := password,
                                        accessToken := accessToken, basicToken := basicToken)))
  {
  }

  /** The basic-auth token: Base64 of "consumerKey:consumerSecret". */
  function BasicToken(o: OptionStk): string {
    Base64.Encode(StringToBytes(o.consumerKey + ":" + o.consumerSecret))
  }

  /** The STK password: Base64 of short code, pass key and timestamp. */
  function Password(o: OptionStk): string {
    Base64.Encode(StringToBytes(o.businessShortCode + o.passKey + o.timestamp))
  }

  /** Both credentials decode back to the text they were built from. */
  lemma CredentialsDecode(o: OptionStk)
    ensures Base64.Decode(BasicToken(o)) == Some(StringToBytes(o.consumerKey + ":" + o.consumerSecret))
    ensures Base64.Decode(Password(o)) == Some(StringToBytes(o.businessShortCode + o.passKey + o.timestamp))
  {
    Base64.DecodeEncode(StringToBytes(o.consumerKey + ":" + o.consumerSecret));
    Base64.DecodeEncode(StringToBytes(o.businessShortCode + o.passKey + o.timestamp));
  }

  /** The default access-token refresh interval: 15 minutes. */
  const DefaultRefreshInterval: int := 15 * 60

  /** The refresh interval: the configured one when positive, else the default. */
  function RefreshInterval(configured: int): (d: int)
    ensures d > 0
    ensures configured > 0 ==> d == configured
    ensures configured <= 0 ==> d == DefaultRefreshInterval
  {
    if configured > 0 then configured else DefaultRefreshInterval
  }

  /** `GetMpesaRequestKey`: where the initiating request is cached. */
  function RequestKey(requestId: string): string {
    "stk:" + requestId
  }

  /** `GetMpesaSTKPushKey`. */
  function StkPushKey(msisdn: string): string {
    "stkpush:" + msisdn
  }

  /** `userAllowedPhonesSet`: the set of phone numbers a user may list. */
  function AllowedPhonesKey(userKey: string): string {
    "stk:user:" + userKey + ":allowedphones"
  }

  /** Distinct checkout ids are cached under distinct keys, and no request
      key is a push key. */
  lemma KeysDistinct(a: string, b: string)
    ensures RequestKey(a) == RequestKey(b) <==> a == b
    ensures RequestKey(a) != StkPushKey(b)
  {
    if RequestKey(a) == RequestKey(b) {
      assert a == RequestKey(a)[4..];
      assert b == RequestKey(b)[4..];
    }
    assert RequestKey(a)[3] == 'p' || RequestKey(a)[3] != StkPushKey(b)[3];
  }
}
