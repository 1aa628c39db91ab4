/** Reading the pull request out of the event that triggered the run
    (index.js:196-216). Only the fields the source reads are modelled; a
    field that is absent (JavaScript's `undefined`) is `None`. */
module Webhook {
  import opened Wrappers

  datatype Head = Head(sha: Option<string>)

  datatype PullRequest = PullRequest(number: Option<int>, htmlUrl: Option<string>, head: Option<Head>)

  datatype Payload = Payload(pullRequest: Option<PullRequest>)

  /** The event context: `request.payload.pull_request`. */
  datatype Request = Request(payload: Option<Payload>)

  /** What `parseWebhook` returns. */
  datatype PullRequestRef = PullRequestRef(prNumber: int, prUrl: string, sha: string)

  const UnsupportedEvent := "Action supports only pull_request event"

  /** JavaScript truthiness of the three fields: a number other than 0, a
      string other than "". */
  predicate Truthy(ref: PullRequestRef)
  {
    ref.prNumber != 0 && ref.prUrl != "" && ref.sha != ""
  }

  /** The request of a pull-request event carrying `ref`. */
  function RequestFor(ref: PullRequestRef): Request
  {
    Request(Some(Payload(Some(PullRequest(Some(ref.prNumber), Some(ref.prUrl), Some(Head(Some(ref.sha))))))))
  }

  /** `parseWebhook`. A missing request, payload, pull request or head is
      read as an empty object, so every field below it is absent and the
      event is refused with the same error, rather than crashing. */
  function ParseWebhook(request: Option<Request>): (r: Result<PullRequestRef>)
    ensures r.Ok? ==> Truthy(r.value) && request == Some(RequestFor(r.value))
    ensures r.Err? ==> r.error == UnsupportedEvent
  {
    var payload := if request.Some? then request.value.payload else None;
    var pr := if payload.Some? then payload.value.pullRequest else None;
    var number := if pr.Some? then pr.value.number else None;
    var url := if pr.Some? then pr.value.htmlUrl else None;
    var head := if pr.Some? then pr.value.head else None;
    var sha := if head.Some? then head.value.sha else None;
    if number.None? || number.value == 0 || url.None? || url.value == "" || sha.None? || sha.value == ""
    then Err(UnsupportedEvent)
    else Ok(PullRequestRef(number.value, url.value, sha.value))
  }

  /** Every pull-request event whose three fields are truthy is accepted and
      its fields are returned unchanged. */
  lemma ParseWebhookAccepts(ref: PullRequestRef)
    requires Truthy(ref)
    ensures ParseWebhook(Some(RequestFor(ref))) == Ok(ref)
  {
  }

  /** So an event is accepted exactly when it is a pull-request event with
      truthy number, URL and head SHA. */
  lemma ParseWebhookExactly(request: Option<Request>)
    ensures ParseWebhook(request).Ok? <==> exists ref :: Truthy(ref) && request == Some(RequestFor(ref))
  {
    if exists ref :: Truthy(ref) && request == Some(RequestFor(ref)) {
      var ref :| Truthy(ref) && request == Some(RequestFor(ref));
      ParseWebhookAccepts(ref);
    }
  }
}
