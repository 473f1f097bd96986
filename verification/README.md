# Youtube-bot: a Dafny model of its decision and text logic

The repository is a Telegram bot that downloads videos from YouTube,
Instagram and Facebook, grown together with a GitHub repository analyser, a
rule-based code analyser, a GitHub webhook receiver and a small download
database. This project models the pure decisions and string handling of
those pieces as immutable datatypes and total functions, and proves what
they promise:

- `VideoBot` (simple_bot.py): the URL support check and the platform
  classifier, the guards and the result tuple of `download_video`, the
  user-facing texts for download errors, and the caption and duration
  formatting of `handle_url`.
- `Domains` (utils_updated.py): the label-based domain reduction of
  `get_domain` and the substring support check.
- `Filenames` (utils.py): `sanitize_filename`.
- `RepoAnalyzer` (github_analyzer.py): `parse_repo_url`, the extension
  rule and allow-list, the bounded walk over the repository tree, and the
  suggestion rules.
- `CodeAnalyzer` (Code-analyzer.py): the rule tables, the rule choice by
  extension, the per-line pass and the structural checks.
- `WebhookHandler` (Webhook_handler.py) and `WebhookDraft`
  (Webhook-handler.py, the earlier and truncated version): signature
  checking, event routing and the payload extractors.
- `DownloadStats` (database.py): the user and download tables as a map and
  a sequence, the counter rule, the per-user statistics and the history.

Shared modules: `Text` holds the Python `str` operations used (`lower`,
`strip`, `split`, `join`, `replace`, `in`, `rstrip`, slicing). `Urls` holds
a simplified `urllib.parse.urlsplit`: the scheme rule, the authority after
`//` up to the next `/`, `?` or `#` (section 3.2 of RFC 3986), the
`ValueError` for an unbalanced `[` or `]`, and `hostname`; the clean-up and
checks it leaves out are listed under "Left out".
`Json` holds the parsed JSON values a webhook receives, with `dict.get`,
`len` and the exceptions they raise on a value of the wrong type.

What the code calls but does not define is a parameter:
- the regular-expression engine (`CodeAnalyzer.Matcher`);
- HMAC-SHA256 as a hex string (`WebhookHandler.HmacHex`);
- the outcome of each `yt_dlp` call (`VideoBot.Stage`);
- the text of `format_file_size`;
- the exception Telegram raises while a video is sent (`uploadError` of `VideoBot.HandleUrl`);
- whether a database commit succeeds;
- the GitHub tree, with per-entry failures of listing or decoding;
- the per-file code analyser of the repository walk, which answers with issues or the text of the exception it raised (`RepoAnalyzer.Analyzer`).

Where the prose description of the repository and the code disagree, the
model follows the code. Examples:
- `parse_repo_url` removes every `.git`, not only a trailing one.
- The CI check looks only at lower-cased file names.
- `get_domain`'s short-domain branch can never fire.

## Model

| member | source | states |
|---|---|---|
| VideoBot.IsSupportedUrl | simple_bot.py:31-40 | a URL whose parsing raises is rejected; an accepted URL has a non-empty authority |
| VideoBot.SupportedIffListed | simple_bot.py:27-40 | a URL is accepted exactly when it parses and its lower-cased authority contains one of the five platform domains; the leading `www.` removal makes no difference |
| VideoBot.WwwPrefixIrrelevant | simple_bot.py:35-38 | dropping a leading `www.` never changes whether a platform domain occurs in the authority |
| VideoBot.PlatformName | simple_bot.py:42-57 | YouTube exactly when `youtube.com` or `youtu.be` occurs in the lower-cased authority; Instagram exactly when `instagram.com` occurs and no YouTube domain; Facebook exactly when `facebook.com` or `fb.watch` occurs and neither earlier platform does; Unknown exactly when none of the five occurs or the URL does not split |
| VideoBot.SupportedIffNamed | simple_bot.py:27-57 | a URL is supported exactly when its platform name is not Unknown |
| VideoBot.NoAuthorityRejected | simple_bot.py:31-40 | a URL without `//` after its scheme is never supported |
| VideoBot.MinutesSecondsRoundTrip | simple_bot.py:168 | the `m:ss` text reads back as the number of seconds it came from, and its seconds part has two digits |
| VideoBot.DurationText | simple_bot.py:343-344 | the caption's duration is `Unknown` exactly when the duration is not positive; otherwise it reads back as the duration |
| VideoBot.TenthsOfMebibyte | simple_bot.py:162-163 | the tenths of a MB shown in the size message are the size rounded to the nearest tenth, ties to even |
| VideoBot.DownloadErrorText | simple_bot.py:194-206 | the user text is never empty; `Private video` gives the private-video text whatever else occurs; otherwise `Video unavailable` gives the unavailable text; otherwise `Unsupported URL` gives the unsupported text; any other message is passed on after `Download failed: ` |
| VideoBot.DownloadVideo | simple_bot.py:117-210 | every failure is `(False, None, non-empty message, None)`; a success returns the downloaded, non-empty path and its actual size, which is at most 50 MB; the title and uploader are `info.get(key, 'Unknown')`, so `None` exactly when the key holds null; the duration is `info.get('duration', 0)` and the format `info.get('ext', 'unknown')`; a transfer that names no file or the empty path reports the file as not found; the transfer starts exactly when metadata came back and passed both guards; the file is deleted exactly when the transfer produced one over the limit |
| VideoBot.DownloadFailureTexts | simple_bot.py:156-210 | the message of each failure path: no metadata, the size and duration guards, a yt-dlp error (through `DownloadErrorText`) or any other exception at either stage, the missing file, and the oversized download with its formatted size |
| VideoBot.SizeGuard | simple_bot.py:160-163 | metadata over 50 MB (`filesize`, else `filesize_approx`, else 0) stops the download before the transfer, with the size message |
| VideoBot.SizeAtLimitPasses | simple_bot.py:160-172 | a size of exactly 50 MB with an admissible duration reaches the transfer |
| VideoBot.DurationGuard | simple_bot.py:160-172 | once the size passed, the transfer is skipped exactly when the duration exceeds 600 seconds, and the failure then reads `Video too long (m:ss). Maximum allowed duration is 10 minutes` |
| VideoBot.CleanMarkdownIsWithout | simple_bot.py:347-348 | the four replacements delete exactly `*`, `_`, `[` and `]` and keep every other character in order |
| VideoBot.ShortTitle | simple_bot.py:351 | a title of at most 50 characters is kept; a longer one becomes its first 50 characters and `...` |
| VideoBot.SentCaption | simple_bot.py:350-361 | the sent caption is a prefix of the caption: all of it when it fits, otherwise exactly its first 1024 characters |
| VideoBot.HandleUrl | simple_bot.py:291-395 | an unsubscribed user gets only the subscription prompt; an unsupported URL gets only the notice; every later reply names `get_platform_name`'s platform; a failed download shows exactly `download_video`'s message; after a successful download, a null title or uploader or an error from Telegram leads to the `except` reply, whose detail is `ErrorDetail` of the exception text; otherwise the downloaded file is sent with the truncated caption built from its metadata |
| VideoBot.ErrorDetail | simple_bot.py:394 | the error details are a prefix of the exception text: all of it when it has at most 100 characters, otherwise exactly the first 100 |
| VideoBot.NullTitleFails | simple_bot.py:347 | metadata whose title is present but null makes `.replace` raise, so the user gets the error reply with that exception instead of a video |
| Domains.ShortDomains | utils_updated.py:39 | the filter keeps exactly the domains with no `.` after their first character |
| Domains.NoShortDomains | utils_updated.py:39-40 | no supported domain survives that filter |
| Domains.DomainWith | utils_updated.py:33-44 | the domain is a suffix of the lower-cased authority |
| Domains.DomainOfNetloc | utils_updated.py:33-44 | the domain is a suffix of the lower-cased authority |
| Domains.ShortBranchDead | utils_updated.py:38-41 | the short-domain branch never changes the result, because its list is empty |
| Domains.DomainDropsVariant | utils_updated.py:35-37 | with more than two labels and a first label `www`, `m` or `mobile`, exactly that label is dropped |
| Domains.DomainKeepsLastTwo | utils_updated.py:42-43 | otherwise, with at least two labels, the domain is the last two labels |
| Domains.DomainOfSingleLabel | utils_updated.py:44 | an authority without `.` is returned lower-cased and unchanged |
| Domains.GetDomain | utils_updated.py:29-47 | `None` exactly when splitting the URL raises; otherwise a suffix of the lower-cased authority |
| Domains.IsSupportedUrl | utils_updated.py:49-55 | accepted exactly when the URL parses, its main domain is non-empty and some supported domain occurs in it; an accepted URL's whole authority then contains that supported domain |
| Domains.NoAuthorityRejected | utils_updated.py:51-55 | a URL without `//` has the empty domain and is rejected |
| Domains.SubstringAcceptsUnlisted | utils_updated.py:51-55 | `https://netflix.com` is accepted although `netflix.com` is not listed |
| Domains.ExactRefinesSubstring | utils_updated.py:49-55 | every URL the corrected check accepts is accepted by the original one |
| Domains.ExactRejectsUnlisted | utils_updated.py:51-55 | the corrected check rejects `https://netflix.com` |
| Filenames.Keep | utils.py:39-42 | the filter keeps only letters, digits, space, `.`, `_` and `-`, and never lengthens |
| Filenames.Sanitize | utils.py:37-43 | the result has only allowed characters, does not end in a space, and holds no `/` or `\` |
| Filenames.KeepCounts | utils.py:39-42 | each allowed character occurs as often as in the input; any other occurs nowhere |
| Filenames.KeepIsSubsequence | utils.py:39-42 | the filter's output is the input with characters deleted, in order |
| Filenames.SanitizeIsSubsequence | utils.py:39-43 | the sanitised name is an ordered subsequence of the input, no longer than it, and only spaces were trimmed from the end |
| Filenames.CleanUnchanged | utils.py:39-43 | a name of allowed characters not ending in a space is returned unchanged |
| Filenames.SanitizeIdempotent | utils.py:39-43 | sanitising twice is sanitising once |
| RepoAnalyzer.ParseCleaned | github_analyzer.py:36-51 | a success exactly when the URL parses, its host is `github.com` and the path without its outer `/` has at least two `/`-separated segments, and then the owner and repository are the first two segments; a failure carries the `Could not parse repository URL` text |
| RepoAnalyzer.ParseRepoUrl | github_analyzer.py:30-51 | a failure reports the URL after the trailing `/` and every `.git` were removed |
| RepoAnalyzer.ParseCleanedRoundTrip | github_analyzer.py:36-51 | parsing `https://github.com/owner/repo` gives back the owner and repository |
| RepoAnalyzer.ParseAssembled | github_analyzer.py:36-51 | any scheme, and any authority whose hostname is `github.com`, parses to the owner and repository |
| RepoAnalyzer.ParseRepoUrlRoundTrip | github_analyzer.py:30-51 | the whole function inverts the URL when neither name contains `.git` |
| RepoAnalyzer.GitInsideNameLost | github_analyzer.py:34 | a `.git` inside the repository name is cut out of the parsed name |
| RepoAnalyzer.PagesRepositoryMangled | github_analyzer.py:34 | `octocat/octocat.github.io` parses as `octocathub.io` |
| RepoAnalyzer.ParseRepoUrlFixed | github_analyzer.py:30-51 | the corrected parser removes only a trailing `.git`, and its failures report that cleaned URL |
| RepoAnalyzer.ParseRepoUrlFixedRoundTrip | github_analyzer.py:30-51 | the corrected parser inverts the URL, with or without a trailing `/` or `.git` |
| RepoAnalyzer.PagesRepositoryKept | github_analyzer.py:34 | the corrected parser keeps `octocat.github.io` |
| RepoAnalyzer.FileExtension | github_analyzer.py:191-193 | the extension has no `.`; it is empty when the name has no `.`; otherwise it is what follows the last `.`, lower-cased |
| RepoAnalyzer.ExtensionOf | github_analyzer.py:191-193 | `base.ext` has extension `ext`, lower-cased |
| RepoAnalyzer.DotlessNeverAnalyzed | github_analyzer.py:193-203 | a name without `.`, such as `Dockerfile`, is never analysed |
| RepoAnalyzer.DockerfileSuffixAnalyzed | github_analyzer.py:193-203 | a name ending in `.Dockerfile` is analysed |
| RepoAnalyzer.DictSet | github_analyzer.py:161-162 | storing a count sets that key, keeps the other keys and keeps keys unique |
| RepoAnalyzer.Step | github_analyzer.py:133-173 | each turn shrinks the work left; a listable directory appends its listing to the end of the queue, any other head is dropped from it; a file is counted (added to the analysed files, the counter raised by one, its issues appended) exactly when it is small enough, analysable, decodable and the analyser does not raise; otherwise only the queue changes |
| RepoAnalyzer.StepKeepsInv | github_analyzer.py:128-173 | a turn keeps the counter equal to the analysed files and within 20, keeps every queued and analysed entry inside the tree, keeps the issues the concatenated results of the analysed files, and keeps the counts exactly the dictionary those files leave (`CountsOf`: one entry set per file with issues, in order) |
| RepoAnalyzer.StepKeepsReach | github_analyzer.py:132-173 | a turn loses no counted file of the tree: each one is analysed already or still in or under the queue |
| RepoAnalyzer.WalkContents | github_analyzer.py:120-173 | at most 20 files are counted, each small enough, analysable, decodable and accepted by the analyser, and all lie in the tree; a walk that stops below 20 has emptied the queue and counted every such file of the tree; the analysed files are exactly the first 20 counted entries of the tree in breadth-first queue order (`AnalysedFiles`); each recorded count is the number of issues of an analysed file under that path, the paths are distinct, and every analysed file with issues is recorded |
| RepoAnalyzer.StepKeepsOrder | github_analyzer.py:132-173 | a turn moves the head of the queue to the analysed files exactly when it is counted, so the analysed files followed by the counted entries still to come in queue order stay the same |
| RepoAnalyzer.CountsOfMean | github_analyzer.py:161-166 | the dictionary the analysed files leave has distinct paths, each entry the issue count of an analysed file with that path, and an entry for every analysed file with issues |
| RepoAnalyzer.ContentsAsWritten | github_analyzer.py:159-173 | when every analysis raises, as reading the unset `self.code_analyzer` does, no file is counted, no issue or count is recorded, and the whole tree is walked |
| RepoAnalyzer.ContentsWithAnalyzer | github_analyzer.py:120-173 | with an analyser that never raises, a walk below 20 files has analysed every analysable file of the tree, and the issues are those of the analysed files in visit order |
| RepoAnalyzer.FileNames | github_analyzer.py:212 | the names are exactly the lower-cased names of the files, not directories |
| RepoAnalyzer.LanguageSuggestions | github_analyzer.py:250-274 | each of the six language suggestions is made exactly for its language (`python`; `javascript` or `typescript`; `java`; `go`) when none of the files it names is in the root listing, and nothing else is suggested |
| RepoAnalyzer.FileSuggestions | github_analyzer.py:214-223 | the README and LICENSE suggestions appear exactly when no file name contains `readme` or `license`; `.gitignore` exactly when it is not a file name |
| RepoAnalyzer.IssueSuggestions | github_analyzer.py:236-242 | the open-issues suggestion appears exactly above 10 open issues |
| RepoAnalyzer.RepositorySuggestions | github_analyzer.py:205-248 | no listing, no suggestions; with a listing, the file suggestions, then CI, then the language suggestions, then the issue suggestions, and never the partial-analysis note |
| RepoAnalyzer.AnalyzeContents | github_analyzer.py:120-189 | a root that cannot be listed gives no issue, no counts and only the partial-analysis note; otherwise the issues, the analysed files and the counts are those of the walk (`AnalysedFiles`, `IssuesOf`, `CountsOf`), the counts mean the issue numbers of those files, a walk below 20 reached every counted file of the tree, the suggestions are those of the second root listing, and the per-file counts have distinct paths, at most 20 of them, each at least 1 |
| RepoAnalyzer.CountsWithinVisited | github_analyzer.py:161-166 | counts stored under distinct paths of analysed files number no more than the analysed files |
| RepoAnalyzer.SuggestionParts | github_analyzer.py:205-243 | a suggestion is made exactly when one of the file, CI, language or issue rules makes it |
| RepoAnalyzer.MissingFilesSuggested | github_analyzer.py:212-223 | with a listing, the README, LICENSE and `.gitignore` suggestions follow the file names |
| RepoAnalyzer.ManyIssuesSuggested | github_analyzer.py:236-237 | with a listing, more than 10 open issues is reported, and only then |
| RepoAnalyzer.SummarySuggested | github_analyzer.py:239-242 | the issue summary appears exactly when the analysis found some issue |
| RepoAnalyzer.CiNamesAsWritten | github_analyzer.py:226-228 | over lower-cased names, CI is suggested exactly when none of `.github`, `.gitlab-ci.yml`, `.travis.yml` is a name |
| RepoAnalyzer.CiSuggestionRule | github_analyzer.py:212-228 | with a listing, CI is suggested exactly when no file is named `.github`, `.gitlab-ci.yml` or `.travis.yml` |
| RepoAnalyzer.JenkinsAndActionsIgnored | github_analyzer.py:212-228 | a root with a `Jenkinsfile` and a `.github` directory is still told to set up CI |
| RepoAnalyzer.CiConfigRecognised | github_analyzer.py:226-228 | the corrected check sees a `Jenkinsfile` in any case and a `.github` directory |
| RepoAnalyzer.CiFixedRefines | github_analyzer.py:226-228 | the corrected suggestion is only made where the original one is |
| CodeAnalyzer.RulesFor | Code-analyzer.py:128-138 | `py` picks the Python rules, `js`, `jsx`, `ts`, `tsx` the JavaScript rules, `sql` the SQL rules, each followed by the general rules; any other extension gets only the general rules |
| CodeAnalyzer.TablesHaveNoFailureKind | Code-analyzer.py:13-120 | no rule in any table has the analysis-error type |
| CodeAnalyzer.RulesForEndsWithGeneral | Code-analyzer.py:128-138 | whatever the extension, the general rules come last |
| CodeAnalyzer.Matching | Code-analyzer.py:166-176 | the matching rules are exactly those whose pattern is found in the line |
| CodeAnalyzer.FirstRaised | Code-analyzer.py:166-180 | no reason exactly when no rule raises something other than `re.error`; otherwise the reason of the first rule that did |
| CodeAnalyzer.LineResult | Code-analyzer.py:162-181 | the line fails exactly when some rule's matching raises, and then with the first such exception; otherwise the issues are exactly the hits of the rules that match (each one is, and each matching rule's is there), on that line, with the stripped line as snippet |
| CodeAnalyzer.AnalyzeLine | Code-analyzer.py:162-181 | the loop computes `LineResult`: one issue per matching rule, in rule order; `re.error` skips the rule; the first other exception escapes |
| CodeAnalyzer.LinesPass | Code-analyzer.py:141-144 | each issue of the line pass names the file and a line number between 1 and the number of lines |
| CodeAnalyzer.LinesPassLine | Code-analyzer.py:141-144 | the issues the pass reports at a line are among those `_analyze_line` gives for it, and all of them are reported when no line up to it raised |
| CodeAnalyzer.LinesPassClean | Code-analyzer.py:141-144 | with rules of no failure type, the line pass reports no analysis error |
| CodeAnalyzer.LinesPassRaises | Code-analyzer.py:141-158 | the line pass stops with an exception exactly when the matching of some line raises |
| CodeAnalyzer.AnalyzeFile | Code-analyzer.py:122-160 | after an exception: the issues of the earlier lines and exactly one analysis-error issue at line 0; otherwise the line issues followed by the file-structure issues, none an analysis error |
| CodeAnalyzer.LineNumbersInRange | Code-analyzer.py:141-144 | line numbers are 1-based and at most the number of lines |
| CodeAnalyzer.LargeFileIssues | Code-analyzer.py:189-196 | one large-file issue at line 0 exactly when the content exceeds 50000 characters |
| CodeAnalyzer.LongLines | Code-analyzer.py:199-203 | exactly the lines longer than 120 characters, with 1-based numbers, in ascending order |
| CodeAnalyzer.Snippet | Code-analyzer.py:210 | a long line's snippet is its first 100 characters and `...` |
| CodeAnalyzer.LongLineIssues | Code-analyzer.py:199-211 | at most five issues, in ascending line order, each for a line over 120 characters; no long line before the last one reported is skipped, and fewer than five means every long line is reported, so these are the first five long lines |
| CodeAnalyzer.FileStructure | Code-analyzer.py:183-224 | the large-file issue, then the long-line issues, then the checks of the file's language, all naming the file and none an analysis error |
| CodeAnalyzer.TerminatedNeverFlagged | Code-analyzer.py:290-309 | a statement ending in `;`, or a line starting with `//`, is never flagged |
| CodeAnalyzer.NextNonBlank | Code-analyzer.py:240-242 | the index found is the first non-blank line at or after the start, or past the end when there is none |
| CodeAnalyzer.Gather | Code-analyzer.py:226-339 | a pass's issues lie within the file's lines and none is an analysis error |
| CodeAnalyzer.GatherLine | Code-analyzer.py:226-339 | a pass reports an issue on a line exactly when its check of that line does |
| CodeAnalyzer.DocstringReported | Code-analyzer.py:238-273 | a public `def` or a `class` line is flagged exactly when the next non-blank line is missing or does not open a triple-quoted docstring |
| CodeAnalyzer.WildcardImportsReported | Code-analyzer.py:316-344 | exactly the lines starting with `import ` or `from ` that hold `import *` are flagged |
| CodeAnalyzer.MissingSemicolonsReported | Code-analyzer.py:284-314 | exactly the non-empty non-comment lines not ending in `;`, `{` or `}` that start a statement are flagged |
| CodeAnalyzer.PythonStructure | Code-analyzer.py:226-282 | the docstring issues, then the wildcard-import issues, none an analysis error and all naming the file |
| CodeAnalyzer.LanguageStructure | Code-analyzer.py:214-219 | `py` gives the docstring then the import issues, `js`, `jsx`, `ts` and `tsx` the semicolon issues, and any other extension none |
| WebhookHandler.VerifySignature | Webhook_handler.py:20-54 | with no secret every request passes; with one, a missing or empty header fails, a header without `=` fails, a wrong algorithm fails, and the header passes exactly when it is `sha256=` and the hex HMAC of the payload |
| WebhookHandler.HeaderPieces | Webhook_handler.py:41-51 | splitting at the first `=` and comparing both pieces is the same as comparing the whole header |
| WebhookHandler.Handled | Webhook_handler.py:128-134 | a handler's result is processed exactly when its body raised nothing, and an exception becomes an error carrying its text |
| WebhookHandler.ReplaceIn | Webhook_handler.py:110 | only a string `ref` can have `refs/heads/` replaced |
| WebhookHandler.MessagesOf | Webhook_handler.py:117 | the messages exist exactly when every commit is a dictionary; there is one per commit, in order, defaulting to `""` |
| WebhookHandler.CommitMessages | Webhook_handler.py:117 | the messages exist exactly when `commits` can be iterated with `.get`; a string or a dictionary with no items gives none |
| WebhookHandler.PushReportOf | Webhook_handler.py:95-134 | processed exactly when the payload's parts have the types the handler uses; the names default to `Unknown`, the branch is `ref` with every `refs/heads/` removed, and the count equals both `len(commits)` and the number of messages |
| WebhookHandler.CommitCount | Webhook_handler.py:112-124 | the commit count equals the number of commit messages |
| WebhookHandler.BranchOfHeadsRef | Webhook_handler.py:110 | a `refs/heads/name` ref gives the branch `name` |
| WebhookHandler.PushBranch | Webhook_handler.py:110 | a push to `refs/heads/name` reports branch `name` |
| WebhookHandler.PushOtherRef | Webhook_handler.py:110 | a ref without `refs/heads/` is reported as it is |
| WebhookHandler.PushDefaults | Webhook_handler.py:107-128 | any payload without `repository`, `ref`, `pusher` and `commits` gives the `Unknown` names, an empty branch and no commits |
| WebhookHandler.ItemFields | Webhook_handler.py:148-206 | the pull request and issue fields are read with their defaults exactly when the payload's parts are dictionaries |
| WebhookHandler.PullRequestReportOf | Webhook_handler.py:136-172 | processed exactly when the pull request fields can be read; the report holds the repository name, the number, title and author login, and the action, each with its default |
| WebhookHandler.IssuesReportOf | Webhook_handler.py:174-210 | processed exactly when the issue fields can be read; the report holds the repository name, the number, title and author login, and the action, each with its default |
| WebhookHandler.ItemDefaults | Webhook_handler.py:148-206 | any payload without the item, `repository` and `action` gives `Unknown` repository, number and user, and empty title and action |
| WebhookHandler.RepositoryReportOf | Webhook_handler.py:212-241 | processed exactly when the repository can be read; the name and action are copied or defaulted |
| WebhookHandler.PingReportOf | Webhook_handler.py:243-272 | processed exactly when the repository can be read; the name and zen are copied or defaulted |
| WebhookHandler.HandleEvent | Webhook_handler.py:56-93 | each of the five event types gives its own handler's result, any other is ignored with its message; a processed result carries its own event type and message |
| WebhookHandler.HandleEventStatus | Webhook_handler.py:56-93 | the status is processed, ignored or error, and only a routed event can fail |
| WebhookDraft.VerifySignature | Webhook-handler.py:19-35 | with no secret every request passes; with one, a missing or empty header fails |
| WebhookDraft.SignatureChecksAgree | Webhook-handler.py:19-35 | the earlier check accepts exactly the headers the later one accepts |
| WebhookDraft.PushSummaryOf | Webhook-handler.py:60-79 | processed exactly when the payload's parts have the types used; the name defaults to `Unknown`, `refs/heads/` is removed from the branch, and the count is `len(commits)` |
| WebhookDraft.HandleEvent | Webhook-handler.py:37-58 | push is processed exactly when its summary can be read, with that summary and its message, and otherwise carries the exception text; the other four types go to their handlers, and any other type is ignored with its message |
| WebhookDraft.RoutesAgree | Webhook-handler.py:37-58 | both versions ignore the same event types, with the same message |
| WebhookDraft.PushAgrees | Webhook-handler.py:60-79 | a payload the later push handler processes is processed here with the same repository, branch and count |
| DownloadStats.GetOrCreateUser | database.py:18-48 | a failed commit changes nothing; a new user takes the given names and language `ar` by default, starting from zero downloads; an existing user takes the given names, keeps the missing ones, its language and its counter |
| DownloadStats.GetOrCreateIdempotent | database.py:18-48 | repeating the same call changes nothing further |
| DownloadStats.LogDownload | database.py:50-81 | the record is appended; a known user's counter rises by one exactly on success and stays the same otherwise; no other user changes |
| DownloadStats.SuccessCount | database.py:66-72 | the successful downloads never outnumber the downloads |
| DownloadStats.LogDownloadKeepsCounters | database.py:50-81 | every user's counter stays equal to their number of successful downloads |
| DownloadStats.NewUserKeepsCounters | database.py:18-48 | creating a user without downloads keeps every counter equal to the successful downloads |
| DownloadStats.UserDownloads | database.py:90 | exactly the user's downloads |
| DownloadStats.Successful | database.py:91 | exactly the successful ones |
| DownloadStats.BestIndex | database.py:102 | the chosen entry has the largest count and comes before any other with that count |
| DownloadStats.GetUserStats | database.py:83-116 | unknown user: nothing; otherwise successes plus failures is the number of the user's downloads, the size sums the non-zero sizes of the successes, the platforms tally the successes, and the most-used platform is absent exactly when nothing succeeded |
| DownloadStats.StatsPlatforms | database.py:93-98 | the platform counts have unique keys, are each at least 1, equal the platform's number of successes, sum to the successes, and list every platform used |
| DownloadStats.MostUsedIsMax | database.py:102 | the most-used platform has the most successes, and every platform seen before it has fewer |
| DownloadStats.InsertNewest | database.py:160-164 | insertion adds the one record and keeps the others |
| DownloadStats.InsertNewestSorted | database.py:160-164 | insertion into a newest-first list keeps it newest first |
| DownloadStats.NewestFirst | database.py:160-164 | sorting keeps the same records |
| DownloadStats.NewestFirstSorted | database.py:160-164 | the sorted records are newest first |
| DownloadStats.EntryOf | database.py:166-174 | the title is never empty and is `Unknown` when missing; platform, status and date are copied |
| DownloadStats.HistoryRows | database.py:160-164 | the user's downloads, all of them, newest first |
| DownloadStats.GetUserDownloadHistory | database.py:157-180 | as many entries as the limit allows, each a shaped record, newest first, and none older than a record left out |

## Left out

- Telegram, HTTP and subscription glue (bot.py, main.py, mainn.py, app.py, health_server.py, the async handlers of simple_bot.py other than `handle_url`): network and UI side effects.
- video_downloader.py and config.py: they only call the extraction library, whose results are the `Stage` inputs here.
- `format_file_size` (simple_bot.py:59-69, utils.py:29-35): floating-point logarithms and division; its text is a parameter.
- `cleanup_file` in its three versions: file-system side effects; the model only records which file is deleted.
- DownloadStats.GetUserStats: `total_size_mb` and the history's `size_mb` are rounded floats; the model keeps the byte totals.
- DownloadStats.GetUserStats: `member_since` and every date formatting or `datetime` value are left out; a record's date is an integer timestamp.
- `get_bot_stats` and `update_daily_stats` (database.py:118-226): SQL aggregation and date handling over the whole database, outside the per-user rules.
- DownloadStats.GetUserDownloadHistory: downloads with equal timestamps keep their logging order; the database leaves that order open.
- DownloadStats.GetUserDownloadHistory: the limit is a natural number; a negative limit is not modelled.
- DownloadStats.GetOrCreateUser: a `user_data` without `id` (a `KeyError` in the source) is not modelled; the id is always given.
- DownloadStats.LogDownload: a database exception appears only as the `commitOk` flag.
- Text.Lower and the `isalnum` and `\w` character classes cover ASCII only; Python's Unicode case and character tables are not modelled.
- Urls: only the parts of `urlsplit` the code relies on are modelled; IPv6 validation, ports and the query are not.
- Urls: `urlparse` also splits `;params` off the last path segment, so `https://github.com/o/r;x` gives repository `r` in the source and `r;x` in the model; and `urlsplit` deletes every tab, carriage return and line feed anywhere in the URL before splitting, which the model does not.
- Urls: `urlsplit` first strips leading C0 control characters and spaces, which the model keeps, so ` https://youtube.com/x` has no scheme or authority in the model while `get_domain` gives `youtube.com` and `parse_repo_url(" https://github.com/o/r")` succeeds.
- Urls: `urlsplit` raises `ValueError` for a non-ASCII authority whose NFKC normal form holds `/`, `?`, `#`, `@` or `:` (for instance `youtube.com` followed by U+2100, which normalises to `a/c`); Unicode normalisation is not modelled, so the model accepts such a URL where `is_supported_url` rejects it.
- DownloadStats.GetUserStats: the user's downloads are read without an `ORDER BY` (database.py:90), so the tie-break between equally used platforms follows the database's row order; the model takes logging order.
- VideoBot.TenthsOfMebibyte: rounds the exact quotient half to even, which is what Python's `.1f` does while the float quotient is exact; sizes from 2^53 bytes on, where the float quotient can be inexact, are not distinguished.
- VideoBot.Metadata: `duration`, `filesize` and `filesize_approx` are integers; a float duration, for which `{duration%60:02d}` raises and the user sees the unexpected-error text instead of the too-long text, is not modelled.
- VideoBot.HandleUrl: only the exception of the video upload itself is an input (`uploadError`); a failure of `send_chat_action`, of the status edits or of the final reply, which would reach the same `except` branch at other points, is not modelled.
- CodeAnalyzer.Matcher: the regular-expression engine is a parameter; the rule table keeps its patterns as text.
- At Code-analyzer.py:246 the second docstring opener, which appears as three spaces, is read as three single quotes; every other quote lost in Code-analyzer.py and Webhook-handler.py is read as the evident string literal.
- WebhookHandler.HmacHex: HMAC-SHA256 (RFC 2104) is a parameter, and `hmac.compare_digest` is string equality on its hex text.
- Json.Value: JSON numbers are integers; floats, and an f-string's rendering of lists and dictionaries, are not modelled (shown as placeholders).
- Json: only the exceptions of `get`, `len` and `replace` on values of the wrong type are modelled, and their texts follow CPython's.
- WebhookHandler: `delivery_id` only feeds log lines, and logging is left out.
- WebhookDraft.HandleEvent: Webhook-handler.py breaks off inside the push handler's `except` branch, so its pull request, issue, repository and ping handlers are lost and appear as `Forwarded`; an exception in the push handler is `PushRaised`.
- RepoAnalyzer: the GitHub API calls become the tree given as input; `analyze_repository` and `check_api_status` (github_analyzer.py:10-28, 53-118) are remote calls and result assembly, not modelled.
- RepoAnalyzer.WalkContents: entries other than files and directories (symlinks, submodules) are not modelled.
- RepoAnalyzer.Step: the analyser is a parameter returning issues or the text of the exception it raised; the source as written always raises (see Findings).
- generate_deploy_key.py and check_errors.py: key generation and subprocess scripts, outside this model.
- models.py: its record fields shape `User` and `Download`; the ORM itself is not modelled.

## Findings

| source | as written | input that shows it | evidently intended | confidence | as-written member | corrected member |
|---|---|---|---|---|---|---|
| github_analyzer.py:34 | `.replace('.git', '')` removes every `.git` in the URL | `https://github.com/octocat/octocat.github.io` parses as repository `octocathub.io` | remove only a trailing `.git` | not executed | RepoAnalyzer.PagesRepositoryMangled | RepoAnalyzer.ParseRepoUrlFixedRoundTrip |
| utils_updated.py:54 | a domain is supported when some listed domain is a substring of it | `https://netflix.com` is accepted through `x.com` | the domain must be one of the listed domains | not executed | Domains.SubstringAcceptsUnlisted | Domains.ExactRejectsUnlisted |
| github_analyzer.py:159 | `self.code_analyzer` is read, but `GitHubAnalyzer` has no `__init__` and never sets it | any repository with an analysable file: the `AttributeError` is caught at line 171, the file skipped, and `files_analyzed` stays 0 with no issue reported | the analyser is a `CodeAnalyzer` the object creates | not executed | RepoAnalyzer.ContentsAsWritten | RepoAnalyzer.ContentsWithAnalyzer |
| github_analyzer.py:212-228 | CI names are looked up among lower-cased file names only | a root with a `Jenkinsfile` and a `.github` directory is told to set up CI | any root entry whose lower-cased name is a CI name counts | not executed | RepoAnalyzer.JenkinsAndActionsIgnored | RepoAnalyzer.CiSuggestionFixed |
