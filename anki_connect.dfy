/**
 * The guarded call to AnkiConnect, the HTTP bridge of the Anki flashcard
 * program: the bridge URL is read from the settings table, and the call
 * throws unless the URL is set, the HTTP status is OK and the reply
 * carries no error message.
 *
 * The HTTP exchange itself is a parameter: `remote` maps the request that
 * would be sent to the outcome the network delivers.
 */
module AnkiConnect {
  import opened Wrappers
  import opened DailyReviews

  /** Primary key of the settings row that holds the AnkiConnect URL. */
  const AnkiSettingsId: string := "anki_settings"

  /** The action whose reply lists review counts per day. */
  const GetNumCardsReviewedByDay: string := "getNumCardsReviewedByDay"

  /** A row of the settings table, reduced to the field the sync reads; the table maps each row's `id` to the row. */
  datatype Settings = Settings(ankiConnectUrl: Option<string>)

  /** A POST to the bridge: where it goes and which action it asks for. */
  datatype Request = Request(url: string, action: string)

  /** The decoded JSON reply: `result` holds `[date, reviewedCards]` pairs. */
  datatype Reply = Reply(result: seq<DayCount>, error: Option<string>)

  /** The body of an HTTP response: decodable JSON or not. */
  datatype Body = Json(reply: Reply) | NotJson

  /** What `fetch` delivers: a rejected promise or a response. */
  datatype HttpOutcome = NetworkError | Response(status: int, body: Body)

  /** The errors `callAnkiConnect` can throw. */
  datatype CallError =
    | UrlNotConfigured
    | FetchFailed
    | HttpError(status: int)
    | InvalidJson
    | AnkiConnectError(message: string)

  /** `getAnkiConnectUrl`: the URL stored in the Anki settings row, if there is one. */
  function GetAnkiConnectUrl(settings: map<string, Settings>): Option<string> {
    if AnkiSettingsId in settings then settings[AnkiSettingsId].ankiConnectUrl else None
  }

  /** JavaScript truthiness of the URL: absent and empty both count as not configured. */
  predicate IsConfigured(url: Option<string>) {
    url.Some? && url.value != ""
  }

  /** `response.ok`: the status lies in the range 200-299. */
  predicate IsOkStatus(status: int) {
    200 <= status <= 299
  }

  /** JavaScript truthiness of the reply's `error` field: present and non-empty. */
  predicate ErrorIsSet(error: Option<string>) {
    error.Some? && error.value != ""
  }

  /**
   * `callAnkiConnect`: the reply when every gate passes, the first failing
   * gate's error otherwise. No request is issued without a configured URL.
   */
  function CallAnkiConnect(url: Option<string>, remote: Request -> HttpOutcome, action: string)
    : (r: Result<Reply, CallError>)
    ensures !IsConfigured(url) ==> r == Failure(UrlNotConfigured)
    ensures IsConfigured(url) ==>
      var outcome := remote(Request(url.value, action));
      (r.Success? <==>
        outcome.Response? && IsOkStatus(outcome.status) &&
        outcome.body.Json? && !ErrorIsSet(outcome.body.reply.error))
    ensures r.Success? ==>
      IsConfigured(url) && remote(Request(url.value, action)).Response? &&
      remote(Request(url.value, action)).body == Json(r.value)
    ensures r == Failure(FetchFailed) <==>
      IsConfigured(url) && remote(Request(url.value, action)).NetworkError?
    ensures r.Failure? && r.error.HttpError? ==>
      IsConfigured(url) && remote(Request(url.value, action)).Response? &&
      remote(Request(url.value, action)).status == r.error.status && !IsOkStatus(r.error.status)
    ensures r == Failure(InvalidJson) <==>
      IsConfigured(url) && remote(Request(url.value, action)).Response? &&
      IsOkStatus(remote(Request(url.value, action)).status) &&
      remote(Request(url.value, action)).body.NotJson?
    ensures r.Failure? && r.error.AnkiConnectError? ==>
      IsConfigured(url) && remote(Request(url.value, action)).Response? &&
      remote(Request(url.value, action)).body.Json? &&
      remote(Request(url.value, action)).body.reply.error == Some(r.error.message) &&
      r.error.message != ""
    ensures IsConfigured(url) ==> r != Failure(UrlNotConfigured)
    ensures IsConfigured(url) ==>
      var outcome := remote(Request(url.value, action));
      (outcome.Response? && !IsOkStatus(outcome.status) ==> r == Failure(HttpError(outcome.status)))
    ensures IsConfigured(url) ==>
      var outcome := remote(Request(url.value, action));
      (outcome.Response? && IsOkStatus(outcome.status) && outcome.body.Json? && ErrorIsSet(outcome.body.reply.error)
       ==> r == Failure(AnkiConnectError(outcome.body.reply.error.value)))
  {
    if !IsConfigured(url) then
      Failure(UrlNotConfigured)
    else
      match remote(Request(url.value, action))
      case NetworkError => Failure(FetchFailed)
      case Response(status, body) =>
        if !IsOkStatus(status) then
          Failure(HttpError(status))
        else
          match body
          case NotJson => Failure(InvalidJson)
          case Json(reply) =>
            if ErrorIsSet(reply.error) then Failure(AnkiConnectError(reply.error.value))
            else Success(reply)
  }

  /**
   * The call's result depends on the network only through the single
   * request to the configured URL, and not at all when no URL is set.
   */
  lemma OnlyConfiguredUrlIsRequested(url: Option<string>, remote1: Request -> HttpOutcome,
                                     remote2: Request -> HttpOutcome, action: string)
    requires IsConfigured(url) ==> remote1(Request(url.value, action)) == remote2(Request(url.value, action))
    ensures CallAnkiConnect(url, remote1, action) == CallAnkiConnect(url, remote2, action)
    ensures !IsConfigured(url) ==> CallAnkiConnect(url, remote1, action) == Failure(UrlNotConfigured)
  {
  }

  /**
   * The settings table decides the first gate: the call fails as "not
   * configured" exactly when there is no Anki settings row or its URL is
   * missing or empty.
   */
  lemma SettingsDecideConfiguration(settings: map<string, Settings>, remote: Request -> HttpOutcome, action: string)
    ensures CallAnkiConnect(GetAnkiConnectUrl(settings), remote, action) == Failure(UrlNotConfigured) <==>
      AnkiSettingsId !in settings || !IsConfigured(settings[AnkiSettingsId].ankiConnectUrl)
  {
  }
}
