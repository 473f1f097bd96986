/** The earlier version of the webhook handler, of which only the signature
    check, the routing and the push handler survive: the file breaks off
    inside the push handler's `except` branch. The check compares the whole
    header with `sha256=` and the digest; the push handler reports the
    repository, the branch and the number of commits. */
module WebhookDraft {
  import opened Text
  import opened Json
  import Handler = WebhookHandler

  /** `verify_signature` of this version. */
  function VerifySignature(secret: Option<string>, payload: seq<bv8>, header: Option<string>,
                           hmacHex: Handler.HmacHex): (ok: bool)
    ensures !Handler.IsConfigured(secret) ==> ok
    ensures Handler.IsConfigured(secret) && !Handler.Given(header) ==> !ok
  {
    if !Handler.IsConfigured(secret) then true
    else if !Handler.Given(header) then false
    else header.value == "sha256=" + hmacHex(secret.value, payload)
  }

  /** Both versions accept exactly the same headers: splitting at the first
      `=` and comparing the two pieces is the same as comparing the whole. */
  lemma SignatureChecksAgree(secret: Option<string>, payload: seq<bv8>, header: Option<string>,
                             hmacHex: Handler.HmacHex)
    ensures VerifySignature(secret, payload, header, hmacHex)
            == Handler.VerifySignature(secret, payload, header, hmacHex)
  {
    assert "sha256=" == Handler.Algorithm + "=";
  }

  /** What this version's push handler reports. */
  datatype PushSummary = PushSummary(repository: Value, branch: string, commitsCount: nat)

  /** The payloads this version's push handler processes: it neither reads
      the pusher nor collects the commit messages. */
  predicate PushAccepted(payload: Value) {
    && payload.Obj?
    && Handler.Field(payload, "repository", EmptyObj).Obj?
    && Handler.Field(payload, "ref", Str("")).Str?
    && Len(Handler.Field(payload, "commits", Arr([]))).Ok?
  }

  /** `_handle_push_event` up to its `except` branch. */
  function PushSummaryOf(payload: Value): (r: Result<PushSummary>)
    ensures r.Ok? <==> PushAccepted(payload)
    ensures r.Ok? ==> r.value.repository
                      == Handler.Field(Handler.Field(payload, "repository", EmptyObj), "full_name", Str("Unknown"))
    ensures r.Ok? ==> r.value.branch == Replace(Handler.Field(payload, "ref", Str("")).s, Handler.RefsHeads, "")
    ensures r.Ok? ==> Len(Handler.Field(payload, "commits", Arr([]))) == Ok(r.value.commitsCount)
  {
    var repository :- Get(payload, "repository", EmptyObj);
    var repoName :- Get(repository, "full_name", Str("Unknown"));
    var commits :- Get(payload, "commits", Arr([]));
    var ref :- Get(payload, "ref", Str(""));
    var branch :- Handler.ReplaceIn(ref, Handler.RefsHeads, "");
    var count :- Len(commits);
    Ok(PushSummary(repoName, branch, count))
  }

  /** Where this version's handled event types go: the push handler, or one
      of the handlers whose text is lost with the end of the file. */
  datatype Response =
    | PushProcessed(summary: PushSummary, message: string)
    | PushRaised(reason: string)
    | Forwarded(eventType: string)
    | Ignored(message: string)

  /** `handle_event` of this version. */
  function HandleEvent(eventType: string, payload: Value): (r: Response)
    ensures r.Ignored? <==> eventType !in Handler.HandledEvents
    ensures r.Ignored? ==> r.message == "Event type " + eventType + " not handled"
    ensures r.Forwarded? ==> r.eventType == eventType && eventType != "push"
    ensures r.PushProcessed? || r.PushRaised? <==> eventType == "push"
    ensures r.PushProcessed? <==> eventType == "push" && PushSummaryOf(payload).Ok?
    ensures r.PushProcessed? ==> && r.summary == PushSummaryOf(payload).value
                                 && r.message == "Push event processed for " + Render(r.summary.repository)
    ensures r.PushRaised? ==> r.reason == PushSummaryOf(payload).error
  {
    if eventType == "push" then
      match PushSummaryOf(payload)
      case Ok(s) => PushProcessed(s, "Push event processed for " + Render(s.repository))
      case Err(e) => PushRaised(e)
    else if eventType in ["pull_request", "issues", "repository", "ping"] then Forwarded(eventType)
    else Ignored("Event type " + eventType + " not handled")
  }

  /** Both versions route the same event types and ignore the same ones. */
  lemma RoutesAgree(eventType: string, payload: Value)
    ensures HandleEvent(eventType, payload).Ignored? <==> Handler.HandleEvent(eventType, payload).Ignored?
    ensures HandleEvent(eventType, payload).Ignored? ==>
              HandleEvent(eventType, payload).message == Handler.HandleEvent(eventType, payload).message
  {
  }

  /** Whatever the later push handler processes, this one processes too, with
      the same repository, branch and count; a payload that makes this one
      raise makes the later one fail as well. */
  lemma PushAgrees(payload: Value)
    ensures Handler.PushReportOf(payload).Ok? ==> PushSummaryOf(payload).Ok?
    ensures Handler.PushReportOf(payload).Ok? ==>
              var later := Handler.PushReportOf(payload).value;
              PushSummaryOf(payload).value == PushSummary(later.repository, later.branch, later.commitsCount)
  {
    if Handler.PushReportOf(payload).Ok? {
      var commits := Handler.Field(payload, "commits", Arr([]));
      assert Handler.CommitsIterable(commits);
      assert commits.Arr? || commits.Str? || commits.Obj?;
    }
  }
}
