/** The access check `_check_token` (app/controllers/telemetria_controller.py). */
module Auth {
  import opened Basics

  /** Whether a request carrying the `X-API-Key` header value `apiKey` (`None`
      when absent) is admitted when the configured `API_TOKEN` is `expected`
      (the empty string when unset). */
  predicate Authorized(expected: string, apiKey: Option<string>): (ok: bool)
    ensures expected == "" ==> ok
    ensures apiKey.None? ==> (ok <==> expected == "")
    ensures ok && expected != "" ==> apiKey == Some(expected)
    ensures apiKey == Some(expected) ==> ok
  {
    if expected == "" then true else apiKey == Some(expected)
  }
}
