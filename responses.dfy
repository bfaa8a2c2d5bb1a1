/**
 * The completion handlers' classification of what the data task reports:
 * a transport error, the response URL, and the body decoded as UTF-8 text.
 * Every failure is folded into the same negative result the caller sees.
 */
module Responses {
  import opened Wrappers
  import Text

  /** What a data task hands to its completion handler. */
  datatype TransportOutcome = TransportOutcome(
    error: Option<string>,        // the transport error, by its description
    responseUrl: Option<string>,  // `response?.url?.absoluteString`
    text: Option<string>          // the returned data decoded as UTF-8; None when absent or undecodable
  )

  /** The origin guard: the response has a URL and it starts with the configured website. */
  function FromWebsite(website: string, o: TransportOutcome): (r: bool)
    ensures r <==> o.responseUrl.Some? && Text.IsPrefix(website, o.responseUrl.value)
  {
    o.responseUrl.Some? && Text.HasPrefix(o.responseUrl.value, website)
  }

  /** `createNewUser`: the reply text, unless anything failed or the reply mentions "Failure". */
  function CreateUserResult(website: string, o: TransportOutcome): (r: Option<string>)
    ensures r.Some? <==>
      && o.error.None?
      && o.responseUrl.Some? && Text.IsPrefix(website, o.responseUrl.value)
      && o.text.Some? && !Text.Occurs("Failure", o.text.value)
    ensures r.Some? ==> r.value == o.text.value
  {
    if o.error.Some? then None
    else if !FromWebsite(website, o) || o.text.None? then None
    else if Text.Contains(o.text.value, "Failure") then None
    else Some(o.text.value)
  }

  /** `upload(customPOSTQueries:)`: success is reaching the website; the reply is never read. */
  function KeyValueResult(website: string, o: TransportOutcome): (r: bool)
    ensures r <==> o.error.None? && o.responseUrl.Some? && Text.IsPrefix(website, o.responseUrl.value)
  {
    if o.error.Some? then false
    else if !FromWebsite(website, o) then false
    else true
  }

  /** `upload(sqlStatement:)`: true exactly when the website replied with text mentioning "Success". */
  function StatementResult(website: string, o: TransportOutcome): (r: bool)
    ensures r <==>
      && o.error.None?
      && o.responseUrl.Some? && Text.IsPrefix(website, o.responseUrl.value)
      && o.text.Some? && Text.Occurs("Success", o.text.value)
  {
    if o.error.Some? then false
    else if !FromWebsite(website, o) || o.text.None? then false
    else Text.Contains(o.text.value, "Success")
  }

  /** A redirect away from the website fails every operation, whatever the reply says. */
  lemma ForeignOriginFails(website: string, o: TransportOutcome)
    requires o.responseUrl.Some? && !Text.HasPrefix(o.responseUrl.value, website)
    ensures !StatementResult(website, o) && CreateUserResult(website, o) == None && !KeyValueResult(website, o)
  {
  }

  /** The key/value result depends on the error and the URL only, never on the reply. */
  lemma KeyValueIgnoresReply(website: string, o: TransportOutcome, text: Option<string>)
    ensures KeyValueResult(website, o) == KeyValueResult(website, o.(text := text))
  {
  }

  /**
   * The three classifications are nested: statement success and user creation
   * each imply that the key/value upload would have counted as success.
   */
  lemma ClassificationsNest(website: string, o: TransportOutcome)
    ensures StatementResult(website, o) ==> KeyValueResult(website, o)
    ensures CreateUserResult(website, o).Some? ==> KeyValueResult(website, o)
  {
  }

  /** Example: "OK-Success" from the write script under the website means true. */
  lemma ExampleStatementReply(website: string, o: TransportOutcome)
    requires website == "https://svc.example.com"
    requires o == TransportOutcome(None, Some("https://svc.example.com/write.php"), Some("OK-Success"))
    ensures StatementResult(website, o)
  {
    assert Text.IsPrefix(website, o.responseUrl.value);
    assert Text.OccursAt("Success", o.text.value, 3);
  }
}
