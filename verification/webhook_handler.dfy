/** The GitHub webhook handler: whether a secret is configured, the check of
    the `X-Hub-Signature-256` header, the routing of event types, and the
    five event handlers that copy fields out of the payload. The HMAC is a
    parameter; logging is left out. */
module WebhookHandler {
  import opened Text
  import opened Json

  // ---------------------------------------------------------------------------
  // is_configured and verify_signature

  /** `bool(self.webhook_secret)`: the environment variable is set and not
      empty. */
  function IsConfigured(secret: Option<string>): (ok: bool)
    ensures ok <==> exists s :: secret == Some(s) && |s| > 0
  {
    secret.Some? && secret.value != []
  }

  /** A header value that Python treats as true: present and not empty. */
  predicate Given(header: Option<string>) {
    header.Some? && header.value != []
  }

  const Algorithm: string := "sha256"

  /** The hex digest of the HMAC-SHA256 of a payload under a secret. */
  type HmacHex = (string, seq<bv8>) -> string

  /** `verify_signature`: without a secret everything passes; otherwise the
      header must be given, split at its first `=` into the algorithm
      `sha256` and the hex digest of the payload. A header without `=` makes
      the unpacking raise, which also gives false. */
  function VerifySignature(secret: Option<string>, payload: seq<bv8>, header: Option<string>,
                           hmacHex: HmacHex): (ok: bool)
    ensures !IsConfigured(secret) ==> ok
    ensures IsConfigured(secret) && !Given(header) ==> !ok
    ensures IsConfigured(secret) && Given(header) && '=' !in header.value ==> !ok
    ensures IsConfigured(secret) && Given(header) && '=' in header.value ==>
              (header.value[..IndexOf(header.value, '=').value] != Algorithm ==> !ok)
    ensures IsConfigured(secret) && Given(header) ==>
              (ok <==> header.value == Algorithm + "=" + hmacHex(secret.value, payload))
  {
    if !IsConfigured(secret) then true
    else if !Given(header) then false
    else
      var h := header.value;
      var expected := hmacHex(secret.value, payload);
      match IndexOf(h, '=')
      case None =>
        PrefixedHasEquals(Algorithm, expected);
        false
      case Some(k) =>
        var ok := h[..k] == Algorithm && h[k + 1..] == expected;
        HeaderPieces(h, k, Algorithm, expected);
        ok
  }

  /** A header made of the algorithm, `=` and a digest contains `=`. */
  lemma PrefixedHasEquals(algo: string, digest: string)
    ensures '=' in algo + "=" + digest
  {
    assert (algo + "=" + digest)[|algo|] == '=';
  }

  /** Splitting at the first `=` gives back the algorithm and the digest
      exactly when the header is their concatenation. */
  lemma HeaderPieces(h: string, k: nat, algo: string, digest: string)
    requires k < |h| && h[k] == '=' && '=' !in h[..k]
    requires algo == Algorithm
    ensures (h[..k] == algo && h[k + 1..] == digest) <==> h == algo + "=" + digest
  {
    assert h == h[..k] + "=" + h[k + 1..];
    if h == algo + "=" + digest {
      assert '=' !in algo;
      var g := algo + "=" + digest;
      IndexOfIs(g, '=', |algo|);
      IndexOfIs(h, '=', k);
      assert g[..|algo|] == algo;
      assert g[|algo| + 1..] == digest;
    }
  }

  // ---------------------------------------------------------------------------
  // Results

  /** What a handler extracts from the payload, per event type. */
  datatype Report =
    | PushReport(repository: Value, branch: string, commitsCount: nat, pusher: Value,
                 commitMessages: seq<Value>)
    | PullRequestReport(repository: Value, number: Value, title: Value, user: Value, action: Value)
    | IssuesReport(repository: Value, number: Value, title: Value, user: Value, action: Value)
    | RepositoryReport(repository: Value, action: Value)
    | PingReport(repository: Value, zen: Value)

  /** The result dictionary: status `processed` with the report's fields,
      `ignored` for an event type without a handler, or `error` with the
      text of the exception a handler caught. */
  datatype Response =
    | Processed(report: Report, message: string)
    | Ignored(message: string)
    | Failed(message: string)

  function Status(r: Response): string {
    match r
    case Processed(_, _) => "processed"
    case Ignored(_) => "ignored"
    case Failed(_) => "error"
  }

  /** The `event_type` field of a processed result. */
  function EventTypeOf(report: Report): string {
    match report
    case PushReport(_, _, _, _, _) => "push"
    case PullRequestReport(_, _, _, _, _) => "pull_request"
    case IssuesReport(_, _, _, _, _) => "issues"
    case RepositoryReport(_, _) => "repository"
    case PingReport(_, _) => "ping"
  }

  /** The `message` field of a processed result. */
  function MessageOf(report: Report): string {
    match report
    case PushReport(repo, branch, _, pusher, _) =>
      "Push event processed for " + Render(repo) + " on " + branch + " by " + Render(pusher)
    case PullRequestReport(_, number, _, user, action) =>
      "Pull request event processed: " + Render(action) + " PR#" + Render(number) + " by " + Render(user)
    case IssuesReport(_, number, _, user, action) =>
      "Issues event processed: " + Render(action) + " Issue#" + Render(number) + " by " + Render(user)
    case RepositoryReport(repo, action) =>
      "Repository event processed: " + Render(action) + " on " + Render(repo)
    case PingReport(_, zen) =>
      "Ping event processed: " + Render(zen)
  }

  /** A handler's `try`/`except`: the report, or the caught exception. */
  function Handled(r: Result<Report>): (resp: Response)
    ensures resp.Processed? <==> r.Ok?
    ensures r.Ok? ==> resp == Processed(r.value, MessageOf(r.value))
    ensures r.Err? ==> resp == Failed(r.error)
  {
    match r
    case Ok(report) => Processed(report, MessageOf(report))
    case Err(e) => Failed(e)
  }

  /** `v.get(key, default)` for the statement of contracts: the default when
      `v` is not a dictionary as well as when the key is missing. */
  function Field(v: Value, key: string, default: Value): Value {
    if v.Obj? then Lookup(v.fields, key, default) else default
  }

  // ---------------------------------------------------------------------------
  // _handle_push_event

  const RefsHeads: string := "refs/heads/"

  /** `v.replace(pat, rep)`: only strings have `replace`. */
  function ReplaceIn(v: Value, pat: string, rep: string): (r: Result<string>)
    requires |pat| > 0
    ensures r.Ok? <==> v.Str?
    ensures r.Ok? ==> r.value == Replace(v.s, pat, rep)
  {
    match v
    case Str(s) => Ok(Replace(s, pat, rep))
    case _ => Err(NoAttribute(v, "replace"))
  }

  /** The list comprehension `[c.get("message", "") for c in items]`. */
  function MessagesOf(items: seq<Value>): (r: Result<seq<Value>>)
    ensures r.Ok? <==> forall k :: 0 <= k < |items| ==> items[k].Obj?
    ensures r.Ok? ==> |r.value| == |items|
    ensures r.Ok? ==> forall k :: 0 <= k < |items| ==> r.value[k] == Field(items[k], "message", Str(""))
  {
    if items == [] then Ok([])
    else
      var m :- Get(items[0], "message", Str(""));
      var rest :- MessagesOf(items[1..]);
      assert forall k :: 1 <= k < |items| ==> items[k] == items[1..][k - 1];
      Ok([m] + rest)
  }

  /** What iterating over `commits` can give: the messages of a list of
      dictionaries; nothing for an empty string or dictionary, whose
      iteration yields no element; an `AttributeError` for the first string
      a non-empty string or dictionary yields. */
  function CommitMessages(commits: Value): (r: Result<seq<Value>>)
    ensures r.Ok? <==> CommitsIterable(commits)
    ensures r.Ok? && commits.Arr? ==> r == MessagesOf(commits.items)
    ensures r.Ok? && !commits.Arr? ==> r.value == []
  {
    match commits
    case Arr(items) => MessagesOf(items)
    case Str(s) => if s == [] then Ok([]) else Err(NoAttribute(Str([s[0]]), "get"))
    case Obj(m) => if m == map[] then Ok([]) else Err(NoAttribute(Str(""), "get"))
    case _ => Err("'" + TypeName(commits) + "' object is not iterable")
  }

  /** The `commits` values whose messages can be collected. */
  predicate CommitsIterable(commits: Value) {
    || (commits.Arr? && forall k :: 0 <= k < |commits.items| ==> commits.items[k].Obj?)
    || commits == Str([])
    || commits == EmptyObj
  }

  /** The payloads the push handler processes without raising. */
  predicate PushAccepted(payload: Value) {
    && payload.Obj?
    && Field(payload, "repository", EmptyObj).Obj?
    && Field(payload, "ref", Str("")).Str?
    && Field(payload, "pusher", EmptyObj).Obj?
    && CommitsIterable(Field(payload, "commits", Arr([])))
  }

  /** The fields of a push event: repository and pusher names default to
      `Unknown`, the branch is `ref` with every `refs/heads/` removed, and
      there is one message per commit, in order. */
  function PushReportOf(payload: Value): (r: Result<Report>)
    ensures r.Ok? <==> PushAccepted(payload)
    ensures r.Ok? ==> r.value.PushReport?
    ensures r.Ok? ==> r.value.repository == Field(Field(payload, "repository", EmptyObj), "full_name", Str("Unknown"))
    ensures r.Ok? ==> r.value.pusher == Field(Field(payload, "pusher", EmptyObj), "name", Str("Unknown"))
    ensures r.Ok? ==> r.value.branch == Replace(Field(payload, "ref", Str("")).s, RefsHeads, "")
    ensures r.Ok? ==> r.value.commitsCount == |r.value.commitMessages|
    ensures r.Ok? ==> Len(Field(payload, "commits", Arr([]))) == Ok(r.value.commitsCount)
    ensures r.Ok? ==> var commits := Field(payload, "commits", Arr([]));
      commits.Arr? ==> forall k :: 0 <= k < |commits.items| ==>
                         r.value.commitMessages[k] == Field(commits.items[k], "message", Str(""))
  {
    var repository :- Get(payload, "repository", EmptyObj);
    var repoName :- Get(repository, "full_name", Str("Unknown"));
    var commits :- Get(payload, "commits", Arr([]));
    var ref :- Get(payload, "ref", Str(""));
    var branch :- ReplaceIn(ref, RefsHeads, "");
    var pusherInfo :- Get(payload, "pusher", EmptyObj);
    var pusher :- Get(pusherInfo, "name", Str("Unknown"));
    var count :- Len(commits);
    var messages :- CommitMessages(commits);
    assert count == |messages| by { CommitCount(commits); }
    Ok(PushReport(repoName, branch, count, pusher, messages))
  }

  /** Whenever the messages can be collected, there are `len(commits)` of
      them. */
  lemma CommitCount(commits: Value)
    requires CommitMessages(commits).Ok?
    ensures Len(commits) == Ok(|CommitMessages(commits).value|)
  {
    if commits == EmptyObj {
      assert |commits.fields| == 0;
    }
  }

  function PushEvent(payload: Value): Response {
    Handled(PushReportOf(payload))
  }

  /** A branch ref loses its `refs/heads/` prefix. */
  lemma BranchOfHeadsRef(prefix: string, name: string)
    requires prefix == RefsHeads && !Contains(name, prefix)
    ensures Replace(prefix + name, prefix, "") == name
  {
    ReplaceAtFront(name, prefix, "");
  }

  /** A push of branch `name` reports `name` as its branch. */
  lemma PushBranch(payload: Value, name: string)
    requires PushAccepted(payload)
    requires Field(payload, "ref", Str("")) == Str(RefsHeads + name) && !Contains(name, RefsHeads)
    ensures PushReportOf(payload).value.branch == name
  {
    BranchOfHeadsRef(RefsHeads, name);
  }

  /** A ref that is not a branch, such as a tag, is reported unchanged. */
  lemma PushOtherRef(payload: Value)
    requires PushAccepted(payload) && !Contains(Field(payload, "ref", Str("")).s, RefsHeads)
    ensures PushReportOf(payload).value.branch == Field(payload, "ref", Str("")).s
  {
  }

  /** A payload without `repository`, `ref`, `pusher` or `commits` is
      processed with every default. */
  lemma PushDefaults(payload: Value)
    requires payload.Obj?
    requires "repository" !in payload.fields && "ref" !in payload.fields
    requires "pusher" !in payload.fields && "commits" !in payload.fields
    ensures PushReportOf(payload) == Ok(PushReport(Str("Unknown"), "", 0, Str("Unknown"), []))
  {
    assert Replace("", RefsHeads, "") == "";
    assert MessagesOf([]) == Ok([]);
  }

  // ---------------------------------------------------------------------------
  // _handle_pull_request_event and _handle_issues_event

  /** The payloads with the named item (`pull_request` or `issue`) that its
      handler processes without raising. */
  predicate ItemAccepted(payload: Value, item: string) {
    && payload.Obj?
    && Field(payload, item, EmptyObj).Obj?
    && Field(payload, "repository", EmptyObj).Obj?
    && Field(Field(payload, item, EmptyObj), "user", EmptyObj).Obj?
  }

  /** The fields both handlers read, in the order they read them: the
      action, the repository name, and the item's number, title and author
      login. */
  function ItemFields(payload: Value, item: string): (r: Result<(Value, Value, Value, Value, Value)>)
    ensures r.Ok? <==> ItemAccepted(payload, item)
    ensures r.Ok? ==> var it := Field(payload, item, EmptyObj);
      && r.value.0 == Field(Field(payload, "repository", EmptyObj), "full_name", Str("Unknown"))
      && r.value.1 == Field(it, "number", Str("Unknown"))
      && r.value.2 == Field(it, "title", Str(""))
      && r.value.3 == Field(Field(it, "user", EmptyObj), "login", Str("Unknown"))
      && r.value.4 == Field(payload, "action", Str(""))
  {
    var it :- Get(payload, item, EmptyObj);
    var action :- Get(payload, "action", Str(""));
    var repository :- Get(payload, "repository", EmptyObj);
    var repoName :- Get(repository, "full_name", Str("Unknown"));
    var number :- Get(it, "number", Str("Unknown"));
    var title :- Get(it, "title", Str(""));
    var userInfo :- Get(it, "user", EmptyObj);
    var user :- Get(userInfo, "login", Str("Unknown"));
    Ok((repoName, number, title, user, action))
  }

  /** `_handle_pull_request_event`: the repository name, the pull
      request's number, title and author, and the action, each read with its
      default into its own field of the result. */
  function PullRequestReportOf(payload: Value): (r: Result<Report>)
    ensures r.Ok? <==> ItemAccepted(payload, "pull_request")
    ensures r.Ok? ==> r.value.PullRequestReport?
    ensures r.Ok? ==> var pr := Field(payload, "pull_request", EmptyObj);
      && r.value.repository == Field(Field(payload, "repository", EmptyObj), "full_name", Str("Unknown"))
      && r.value.number == Field(pr, "number", Str("Unknown"))
      && r.value.title == Field(pr, "title", Str(""))
      && r.value.user == Field(Field(pr, "user", EmptyObj), "login", Str("Unknown"))
      && r.value.action == Field(payload, "action", Str(""))
  {
    var f :- ItemFields(payload, "pull_request");
    Ok(PullRequestReport(f.0, f.1, f.2, f.3, f.4))
  }

  /** `_handle_issues_event`: the same fields, read from `issue`. */
  function IssuesReportOf(payload: Value): (r: Result<Report>)
    ensures r.Ok? <==> ItemAccepted(payload, "issue")
    ensures r.Ok? ==> r.value.IssuesReport?
    ensures r.Ok? ==> var issue := Field(payload, "issue", EmptyObj);
      && r.value.repository == Field(Field(payload, "repository", EmptyObj), "full_name", Str("Unknown"))
      && r.value.number == Field(issue, "number", Str("Unknown"))
      && r.value.title == Field(issue, "title", Str(""))
      && r.value.user == Field(Field(issue, "user", EmptyObj), "login", Str("Unknown"))
      && r.value.action == Field(payload, "action", Str(""))
  {
    var f :- ItemFields(payload, "issue");
    Ok(IssuesReport(f.0, f.1, f.2, f.3, f.4))
  }

  /** A payload without the item, repository or action still passes: the
      number and author become `Unknown` and the title and action empty. */
  lemma ItemDefaults(payload: Value, item: string)
    requires payload.Obj?
    requires item !in payload.fields && "repository" !in payload.fields && "action" !in payload.fields
    ensures ItemFields(payload, item) == Ok((Str("Unknown"), Str("Unknown"), Str(""), Str("Unknown"), Str("")))
  {
  }

  // ---------------------------------------------------------------------------
  // _handle_repository_event and _handle_ping_event

  /** The payloads the repository and ping handlers process. */
  predicate RepositoryAccepted(payload: Value) {
    payload.Obj? && Field(payload, "repository", EmptyObj).Obj?
  }

  function RepositoryReportOf(payload: Value): (r: Result<Report>)
    ensures r.Ok? <==> RepositoryAccepted(payload)
    ensures r.Ok? ==> && r.value.RepositoryReport?
                      && r.value.repository == Field(Field(payload, "repository", EmptyObj), "full_name", Str("Unknown"))
                      && r.value.action == Field(payload, "action", Str(""))
  {
    var action :- Get(payload, "action", Str(""));
    var repository :- Get(payload, "repository", EmptyObj);
    var repoName :- Get(repository, "full_name", Str("Unknown"));
    Ok(RepositoryReport(repoName, action))
  }

  function PingReportOf(payload: Value): (r: Result<Report>)
    ensures r.Ok? <==> RepositoryAccepted(payload)
    ensures r.Ok? ==> && r.value.PingReport?
                      && r.value.repository == Field(Field(payload, "repository", EmptyObj), "full_name", Str("Unknown"))
                      && r.value.zen == Field(payload, "zen", Str(""))
  {
    var repository :- Get(payload, "repository", EmptyObj);
    var repoName :- Get(repository, "full_name", Str("Unknown"));
    var zen :- Get(payload, "zen", Str(""));
    Ok(PingReport(repoName, zen))
  }

  // ---------------------------------------------------------------------------
  // handle_event

  const HandledEvents: seq<string> := ["push", "pull_request", "issues", "repository", "ping"]

  /** The payloads the handler for a handled event type processes. */
  predicate Accepted(eventType: string, payload: Value) {
    if eventType == "push" then PushAccepted(payload)
    else if eventType == "pull_request" then ItemAccepted(payload, "pull_request")
    else if eventType == "issues" then ItemAccepted(payload, "issue")
    else RepositoryAccepted(payload)
  }

  /** `handle_event`: the five event types go to their handlers, whose
      result carries that same event type; any other type is ignored. */
  function HandleEvent(eventType: string, payload: Value): (r: Response)
    ensures r.Ignored? <==> eventType !in HandledEvents
    ensures r.Ignored? ==> r.message == "Event type " + eventType + " not handled"
    ensures r.Processed? ==> EventTypeOf(r.report) == eventType
    ensures r.Processed? ==> r.message == MessageOf(r.report)
    ensures eventType in HandledEvents ==> (r.Processed? <==> Accepted(eventType, payload))
    ensures eventType == "push" ==> r == Handled(PushReportOf(payload))
    ensures eventType == "pull_request" ==> r == Handled(PullRequestReportOf(payload))
    ensures eventType == "issues" ==> r == Handled(IssuesReportOf(payload))
    ensures eventType == "repository" ==> r == Handled(RepositoryReportOf(payload))
    ensures eventType == "ping" ==> r == Handled(PingReportOf(payload))
  {
    if eventType == "push" then PushEvent(payload)
    else if eventType == "pull_request" then Handled(PullRequestReportOf(payload))
    else if eventType == "issues" then Handled(IssuesReportOf(payload))
    else if eventType == "repository" then Handled(RepositoryReportOf(payload))
    else if eventType == "ping" then Handled(PingReportOf(payload))
    else Ignored("Event type " + eventType + " not handled")
  }

  /** Every response has one of the three statuses, and only a handled event
      type can fail. */
  lemma HandleEventStatus(eventType: string, payload: Value)
    ensures Status(HandleEvent(eventType, payload)) in {"processed", "ignored", "error"}
    ensures HandleEvent(eventType, payload).Failed? ==> eventType in HandledEvents
  {
  }
}
