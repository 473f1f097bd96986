/** The video-downloading Telegram bot: which URLs it accepts, how it names
    the platform, the size and duration guards around the extraction library,
    the error texts it shows, and the caption it sends with a video.

    The extraction library is not modelled: what it answers for a URL (the
    metadata of `extract_info`, the file left by `download`, or the exception
    either raised) is an input. */
module VideoBot {
  import opened Text
  import Urls

  /** Telegram's upload limit, in bytes. */
  const MaxFileSize: int := 50 * 1024 * 1024
  /** The longest video accepted, in seconds. */
  const MaxDuration: int := 600
  const Mebibyte: nat := 1024 * 1024

  const SupportedPlatforms: seq<string> :=
    ["youtube.com", "youtu.be", "instagram.com", "facebook.com", "fb.watch"]

  // ---------------------------------------------------------------------------
  // URL acceptance and platform names

  /** The authority as `is_supported_url` compares it: lower-cased, with a
      leading `www.` removed. */
  function AcceptedDomain(netloc: string): string {
    var d := Lower(netloc);
    if StartsWith(d, "www.") then d[4..] else d
  }

  /** `is_supported_url`: a parse error rejects the URL. */
  function IsSupportedUrl(url: string): (ok: bool)
    ensures Urls.UrlSplit(url).Err? ==> !ok
    ensures ok ==> Urls.UrlSplit(url).value.netloc != []
  {
    match Urls.UrlSplit(url)
    case Err(_) => false
    case Ok(parts) =>
      var d := AcceptedDomain(parts.netloc);
      if ContainsAny(d, SupportedPlatforms) then
        var i :| 0 <= i < |SupportedPlatforms| && Contains(d, SupportedPlatforms[i]);
        NonEmptyContains(d, SupportedPlatforms[i]);
        true
      else false
  }

  lemma NonEmptyContains(d: string, p: string)
    requires |p| > 0 && Contains(d, p)
    ensures |d| > 0
  {
  }

  /** The URL splits and its lower-cased authority contains `p`. */
  predicate InAuthority(url: string, p: string) {
    Urls.UrlSplit(url).Ok? && Contains(Lower(Urls.UrlSplit(url).value.netloc), p)
  }

  /** `get_platform_name`: the first platform, in the order YouTube,
      Instagram, Facebook, whose domains occur in the lower-cased authority. */
  function PlatformName(url: string): (name: string)
    ensures name == "YouTube" <==> InAuthority(url, "youtube.com") || InAuthority(url, "youtu.be")
    ensures name == "Instagram" <==>
              && !InAuthority(url, "youtube.com") && !InAuthority(url, "youtu.be")
              && InAuthority(url, "instagram.com")
    ensures name == "Facebook" <==>
              && !InAuthority(url, "youtube.com") && !InAuthority(url, "youtu.be")
              && !InAuthority(url, "instagram.com")
              && (InAuthority(url, "facebook.com") || InAuthority(url, "fb.watch"))
    ensures name == "Unknown" <==>
              && !InAuthority(url, "youtube.com") && !InAuthority(url, "youtu.be")
              && !InAuthority(url, "instagram.com")
              && !InAuthority(url, "facebook.com") && !InAuthority(url, "fb.watch")
  {
    match Urls.UrlSplit(url)
    case Err(_) => "Unknown"
    case Ok(parts) =>
      var d := Lower(parts.netloc);
      if Contains(d, "youtube.com") || Contains(d, "youtu.be") then "YouTube"
      else if Contains(d, "instagram.com") then "Instagram"
      else if Contains(d, "facebook.com") || Contains(d, "fb.watch") then "Facebook"
      else "Unknown"
  }

  /** Removing a leading `www.` never changes whether a platform domain
      occurs: none of them starts with `w` or `.`. */
  lemma {:induction false} WwwPrefixIrrelevant(d: string)
    ensures ContainsAny(AcceptedDomain(d), SupportedPlatforms) <==> ContainsAny(Lower(d), SupportedPlatforms)
  {
    var l := Lower(d);
    if StartsWith(l, "www.") {
      forall p | p in SupportedPlatforms
        ensures Contains(l[4..], p) <==> Contains(l, p)
      {
        WwwSkipped(l, p);
      }
      assert forall i :: 0 <= i < |SupportedPlatforms| ==> SupportedPlatforms[i] in SupportedPlatforms;
    }
  }

  /** A pattern that starts with neither `w` nor `.` occurs after a
      leading `www.` exactly when it occurs at all. */
  lemma WwwSkipped(l: string, p: string)
    requires StartsWith(l, "www.") && |p| > 0 && p[0] != 'w' && p[0] != '.'
    ensures Contains(l[4..], p) <==> Contains(l, p)
  {
    if Contains(l[4..], p) {
      ContainsInSuffix(l, 4, p);
    }
    if Contains(l, p) {
      ContainsAt(l, p);
      var i: nat :| OccursAt(l, p, i);
      assert l[i] == p[0];
      assert l[..4] == "www.";
      assert forall j :: 0 <= j < 4 ==> l[j] == l[..4][j];
      assert i >= 4;
      assert OccursAt(l[4..], p, i - 4) by {
        assert l[4..][i - 4..i - 4 + |p|] == l[i..i + |p|];
      }
      ContainsAt(l[4..], p);
    }
  }

  /** A URL is accepted exactly when it splits and its lower-cased
      authority, `www.` or not, holds one of the platform domains. */
  lemma SupportedIffListed(url: string)
    ensures IsSupportedUrl(url) <==>
              Urls.UrlSplit(url).Ok? && ContainsAny(Lower(Urls.UrlSplit(url).value.netloc), SupportedPlatforms)
  {
    if Urls.UrlSplit(url).Ok? {
      WwwPrefixIrrelevant(Urls.UrlSplit(url).value.netloc);
    }
  }

  /** A URL is accepted exactly when it gets a platform name other than
      `Unknown`. */
  lemma SupportedIffNamed(url: string)
    ensures IsSupportedUrl(url) <==> PlatformName(url) != "Unknown"
  {
    match Urls.UrlSplit(url)
    case Err(_) =>
    case Ok(parts) =>
      WwwPrefixIrrelevant(parts.netloc);
      var l := Lower(parts.netloc);
      if ContainsAny(l, SupportedPlatforms) {
        var i :| 0 <= i < |SupportedPlatforms| && Contains(l, SupportedPlatforms[i]);
        assert i == 0 || i == 1 || i == 2 || i == 3 || i == 4;
      }
      if PlatformName(url) != "Unknown" {
        if Contains(l, "youtube.com") {
          assert Contains(l, SupportedPlatforms[0]);
        } else if Contains(l, "youtu.be") {
          assert Contains(l, SupportedPlatforms[1]);
        } else if Contains(l, "instagram.com") {
          assert Contains(l, SupportedPlatforms[2]);
        } else if Contains(l, "facebook.com") {
          assert Contains(l, SupportedPlatforms[3]);
        } else {
          assert Contains(l, SupportedPlatforms[4]);
        }
      }
  }

  /** A URL with no `scheme://` has no authority, so it is rejected. */
  lemma NoAuthorityRejected(url: string)
    requires !StartsWith(Urls.SplitScheme(url).1, "//")
    ensures !IsSupportedUrl(url)
  {
  }

  // ---------------------------------------------------------------------------
  // Number formatting

  /** `f"{m}:{s:02d}"` for the minutes and seconds of `seconds`. */
  function MinutesSeconds(seconds: nat): string {
    Decimal(seconds / 60) + ":" + Pad2(seconds % 60)
  }

  /** Reads `m:ss` back into seconds. */
  function ParseMinutesSeconds(s: string): Option<nat> {
    match IndexOf(s, ':')
    case None => None
    case Some(k) => ParsePieces(s[..k], s[k + 1..])
  }

  /** Minutes and seconds as read from the two sides of the `:`. */
  function ParsePieces(minutes: string, seconds: string): Option<nat> {
    if AllDigits(minutes) && AllDigits(seconds) then
      Some(60 * ParseDecimal(minutes) + ParseDecimal(seconds))
    else None
  }

  /** The `m:ss` text names the number of seconds it was made from, and its
      seconds part has at least two digits. */
  lemma MinutesSecondsRoundTrip(seconds: nat)
    ensures ParseMinutesSeconds(MinutesSeconds(seconds)) == Some(seconds)
    ensures var t := MinutesSeconds(seconds); |t| >= 4 && t[|t| - 3] == ':'
  {
    var m, s, t := Decimal(seconds / 60), Pad2(seconds % 60), MinutesSeconds(seconds);
    DecimalRoundTrip(seconds / 60);
    Pad2Short(seconds % 60);
    JoinedPieces(m, s);
    ParseAt(t, |m|);
    assert ParsePieces(m, s) == Some(seconds);
    assert t[|m|] == ':';
  }

  /** A two-digit number is padded to exactly two digits. */
  lemma Pad2Short(n: nat)
    requires n < 100
    ensures |Pad2(n)| == 2
  {
    if n >= 10 {
      assert Decimal(n) == Decimal(n / 10) + [DigitChar(n % 10)];
      assert Decimal(n / 10) == [DigitChar(n / 10)];
    }
  }

  /** The text is read as the pieces around its first `:`. */
  lemma ParseAt(t: string, k: nat)
    requires IndexOf(t, ':') == Some(k)
    ensures k < |t| && ParseMinutesSeconds(t) == ParsePieces(t[..k], t[k + 1..])
  {
  }

  /** In `m:s` with `m` a numeral, the first `:` is the one after `m`. */
  lemma JoinedPieces(m: string, s: string)
    requires AllDigits(m)
    ensures IndexOf(m + ":" + s, ':') == Some(|m|)
    ensures (m + ":" + s)[..|m|] == m && (m + ":" + s)[|m| + 1..] == s
  {
    var t := m + ":" + s;
    assert ':' !in m by {
      forall i | 0 <= i < |m| ensures m[i] != ':' { assert IsDigit(m[i]); }
    }
    assert t[..|m|] == m;
    IndexOfIs(t, ':', |m|);
    assert t[|m| + 1..] == s;
  }

  /** `duration_str` of `handle_url`: `m:ss` for a positive duration. */
  function DurationText(duration: int): (r: string)
    ensures duration <= 0 <==> r == "Unknown"
    ensures duration > 0 ==> ParseMinutesSeconds(r) == Some(duration)
  {
    if duration > 0 then
      MinutesSecondsRoundTrip(duration);
      MinutesSeconds(duration)
    else "Unknown"
  }

  /** Tenths of a mebibyte in `n` bytes, rounded half to even: what
      `f"{n / 1048576:.1f}"` prints, the quotient being exact in binary. */
  function TenthsOfMebibyte(n: nat): (t: nat)
    ensures -(Mebibyte as int) <= 2 * (n * 10 - t * Mebibyte) <= Mebibyte
    ensures 2 * (n * 10 - t * Mebibyte) == Mebibyte ==> t % 2 == 0
    ensures 2 * (n * 10 - t * Mebibyte) == -(Mebibyte as int) ==> t % 2 == 0
  {
    var q := n * 10 / Mebibyte;
    var r := n * 10 % Mebibyte;
    if 2 * r > Mebibyte || (2 * r == Mebibyte && q % 2 == 1) then q + 1 else q
  }

  /** `f"{size_mb:.1f}"` */
  function MegabytesText(n: nat): string {
    var t := TenthsOfMebibyte(n);
    Decimal(t / 10) + "." + [DigitChar(t % 10)]
  }

  // ---------------------------------------------------------------------------
  // download_video

  /** A key of the metadata dictionary: missing, present with a null
      value, or present with a value. */
  datatype Field<T> = Absent | Null | Present(value: T) {
    /** `info.get(key, default)`: the default for a missing key, Python's
        `None` for a null value. */
    function Get(default: T): (r: Option<T>)
      ensures r.None? <==> this.Null?
      ensures this.Absent? ==> r == Some(default)
      ensures this.Present? ==> r == Some(this.value)
    {
      match this
      case Absent => Some(default)
      case Null => None
      case Present(v) => Some(v)
    }
  }

  /** The fields of the extraction library's metadata that the bot reads.
      For the numbers, `None` stands for a missing key and a null value
      alike: the code only tests them for truth, where both are false. */
  datatype Metadata = Metadata(
    filesize: Option<int>,
    filesizeApprox: Option<int>,
    duration: Option<int>,
    title: Field<string>,
    uploader: Field<string>,
    ext: Field<string>)

  /** What a call into the extraction library did: returned a value, raised
      its `DownloadError`, or raised anything else. */
  datatype Stage<+T> = Returned(value: T) | DownloadError(message: string) | Crashed(message: string)

  /** A file the download left on disk, with its actual size. */
  datatype LocalFile = LocalFile(path: string, size: int)

  /** The `video_info` dictionary; `None` is Python's `None`. */
  datatype VideoInfo = VideoInfo(title: Option<string>, duration: int, uploader: Option<string>, fileSize: int,
                                 format: Option<string>)

  /** The tuple `(success, file_path, error_message, video_info)`. */
  datatype DownloadResult = DownloadResult(
    success: bool,
    filePath: Option<string>,
    error: Option<string>,
    info: Option<VideoInfo>)

  /** A result together with what the run did to the outside: whether the
      transfer was started and which file was deleted. */
  datatype DownloadRun = DownloadRun(result: DownloadResult, transferStarted: bool, removed: Option<string>)

  /** `filesize or filesize_approx`, with 0 for both missing. */
  function ReportedSize(m: Metadata): int {
    if m.filesize.Some? && m.filesize.value != 0 then m.filesize.value
    else m.filesizeApprox.GetOr(0)
  }

  /** The two guards that run before any transfer. */
  predicate PassesPreChecks(m: Metadata) {
    ReportedSize(m) <= MaxFileSize && !(m.duration.Some? && m.duration.value > MaxDuration)
  }

  function Failure(message: string): DownloadResult {
    DownloadResult(false, None, Some(message), None)
  }

  /** The user-facing text for a `DownloadError`. */
  function DownloadErrorText(message: string): (r: string)
    ensures |r| > 0
    ensures Contains(message, "Private video") ==> r == "This video is private and cannot be downloaded"
    ensures !Contains(message, "Private video") && Contains(message, "Video unavailable") ==>
      r == "This video is not available for download"
    ensures (&& !Contains(message, "Private video")
             && !Contains(message, "Video unavailable")
             && Contains(message, "Unsupported URL")) ==>
      r == "This URL is not supported or the video format is not compatible"
    ensures (&& !Contains(message, "Private video")
             && !Contains(message, "Video unavailable")
             && !Contains(message, "Unsupported URL")) ==>
      r == "Download failed: " + message
  {
    var fallback := "Download failed: " + message;
    if Contains(message, "Private video") then "This video is private and cannot be downloaded"
    else if Contains(message, "Video unavailable") then "This video is not available for download"
    else if Contains(message, "Unsupported URL") then "This URL is not supported or the video format is not compatible"
    else fallback
  }

  function SizeLimitText(size: nat): string {
    "Video too large (" + MegabytesText(size) + "MB). Maximum allowed size is 50MB"
  }

  function DurationLimitText(duration: nat): string {
    "Video too long (" + MinutesSeconds(duration) + "). Maximum allowed duration is 10 minutes"
  }

  const FileNotFound := "Download completed but file not found"

  /** `download_video`: `formatSize` is the human-readable size text used in
      the message for a file that turned out too large. */
  function DownloadVideo(extract: Stage<Option<Metadata>>, transfer: Stage<Option<LocalFile>>,
                         formatSize: int -> string): (run: DownloadRun)
    // every failure has the same shape
    ensures !run.result.success ==>
      run.result.filePath.None? && run.result.error.Some? && |run.result.error.value| > 0 && run.result.info.None?
    // a success hands over the downloaded file and its actual, admissible size
    ensures run.result.success ==>
      && transfer.Returned? && transfer.value.Some?
      && run.result.filePath == Some(transfer.value.value.path) && transfer.value.value.path != []
      && run.result.error.None? && run.result.info.Some?
      && run.result.info.value.fileSize == transfer.value.value.size <= MaxFileSize
    // the title and uploader are Python's None exactly when the key holds null
    ensures run.result.success ==>
      && extract.Returned? && extract.value.Some?
      && run.result.info.value.title == extract.value.value.title.Get("Unknown")
      && run.result.info.value.uploader == extract.value.value.uploader.Get("Unknown")
      && (run.result.info.value.title.None? <==> extract.value.value.title.Null?)
      && (run.result.info.value.uploader.None? <==> extract.value.value.uploader.Null?)
    // the duration defaults to 0, and the format is the extension or "unknown"
    ensures run.result.success ==>
      && run.result.info.value.duration == extract.value.value.duration.GetOr(0)
      && run.result.info.value.format == extract.value.value.ext.Get("unknown")
    // a transfer that names no file, or the empty path, is reported as such
    ensures run.transferStarted && transfer.Returned? && (transfer.value.None? || transfer.value.value.path == []) ==>
      run.result.error == Some("Download completed but file not found")
    // the transfer starts only after the metadata passed both guards
    ensures run.transferStarted <==> extract.Returned? && extract.value.Some? && PassesPreChecks(extract.value.value)
    ensures run.result.success ==> run.transferStarted
    // an oversize download is deleted, and nothing else is
    ensures run.removed.Some? <==>
      && run.transferStarted && transfer.Returned? && transfer.value.Some?
      && transfer.value.value.path != [] && transfer.value.value.size > MaxFileSize
    ensures run.removed.Some? ==> run.removed == Some(transfer.value.value.path) && !run.result.success
  {
    match extract
    case DownloadError(m) => DownloadRun(Failure(DownloadErrorText(m)), false, None)
    case Crashed(m) => DownloadRun(Failure("An unexpected error occurred: " + m), false, None)
    case Returned(None) => DownloadRun(Failure("Could not extract video information"), false, None)
    case Returned(Some(meta)) => Guarded(meta, transfer, formatSize)
  }

  /** The part of `download_video` once the metadata is in hand: the size
      guard, then the duration guard, then the transfer. */
  function Guarded(meta: Metadata, transfer: Stage<Option<LocalFile>>, formatSize: int -> string): (run: DownloadRun)
    ensures run.transferStarted <==> PassesPreChecks(meta)
    ensures ReportedSize(meta) > MaxFileSize ==>
      run.result == Failure(SizeLimitText(ReportedSize(meta))) && run.removed.None?
    ensures ReportedSize(meta) <= MaxFileSize && meta.duration.Some? && meta.duration.value > MaxDuration ==>
      run.result == Failure(DurationLimitText(meta.duration.value)) && run.removed.None?
    ensures PassesPreChecks(meta) ==> run == Transfer(meta, transfer, formatSize)
  {
    var size := ReportedSize(meta);
    if size > MaxFileSize then
      DownloadRun(Failure(SizeLimitText(size)), false, None)
    else if meta.duration.Some? && meta.duration.value > MaxDuration then
      DownloadRun(Failure(DurationLimitText(meta.duration.value)), false, None)
    else Transfer(meta, transfer, formatSize)
  }

  /** The part of `download_video` after both guards passed: the transfer,
      the check that the file exists, and the check of its actual size. */
  function Transfer(meta: Metadata, transfer: Stage<Option<LocalFile>>, formatSize: int -> string): (run: DownloadRun)
    ensures run.transferStarted
    ensures !run.result.success ==>
      run.result.filePath.None? && run.result.error.Some? && |run.result.error.value| > 0 && run.result.info.None?
    ensures run.result.success <==>
      transfer.Returned? && transfer.value.Some? && transfer.value.value.path != []
      && transfer.value.value.size <= MaxFileSize
    ensures run.result.success ==>
      && run.result.filePath == Some(transfer.value.value.path) && run.result.error.None?
      && run.result.info == Some(VideoInfo(meta.title.Get("Unknown"), meta.duration.GetOr(0),
                                           meta.uploader.Get("Unknown"), transfer.value.value.size,
                                           meta.ext.Get("unknown")))
    ensures transfer.DownloadError? ==> run.result.error == Some(DownloadErrorText(transfer.message))
    ensures transfer.Crashed? ==> run.result.error == Some("An unexpected error occurred: " + transfer.message)
    ensures transfer.Returned? && (transfer.value.None? || transfer.value.value.path == []) ==>
      run.result.error == Some(FileNotFound)
    ensures run.removed.Some? <==>
      transfer.Returned? && transfer.value.Some? && transfer.value.value.path != []
      && transfer.value.value.size > MaxFileSize
    ensures run.removed.Some? ==>
      && run.removed == Some(transfer.value.value.path)
      && run.result.error == Some("Downloaded file too large (" + formatSize(transfer.value.value.size) + ")")
  {
    match transfer
    case DownloadError(m) => DownloadRun(Failure(DownloadErrorText(m)), true, None)
    case Crashed(m) => DownloadRun(Failure("An unexpected error occurred: " + m), true, None)
    case Returned(None) => DownloadRun(Failure(FileNotFound), true, None)
    case Returned(Some(file)) =>
      if file.path == [] then DownloadRun(Failure(FileNotFound), true, None)
      else if file.size > MaxFileSize then
        DownloadRun(Failure("Downloaded file too large (" + formatSize(file.size) + ")"), true, Some(file.path))
      else
        var info := VideoInfo(
          meta.title.Get("Unknown"), meta.duration.GetOr(0), meta.uploader.Get("Unknown"),
          file.size, meta.ext.Get("unknown"));
        DownloadRun(DownloadResult(true, Some(file.path), None, Some(info)), true, None)
  }

  /** The message of each failure of `download_video`: the mapped text of a
      `DownloadError`, the text of any other exception, the missing
      metadata, the two guards' texts, and those of the transfer. */
  lemma DownloadFailureTexts(extract: Stage<Option<Metadata>>, transfer: Stage<Option<LocalFile>>,
                             formatSize: int -> string)
    // an exception or empty answer from the metadata stage
    ensures extract.DownloadError? ==>
      DownloadVideo(extract, transfer, formatSize).result.error == Some(DownloadErrorText(extract.message))
    ensures extract.Crashed? ==>
      DownloadVideo(extract, transfer, formatSize).result.error
        == Some("An unexpected error occurred: " + extract.message)
    ensures extract == Returned(None) ==>
      DownloadVideo(extract, transfer, formatSize).result.error == Some("Could not extract video information")
    // the two guards, the size first
    ensures extract.Returned? && extract.value.Some? && ReportedSize(extract.value.value) > MaxFileSize ==>
      DownloadVideo(extract, transfer, formatSize).result.error
        == Some(SizeLimitText(ReportedSize(extract.value.value)))
    ensures (&& extract.Returned? && extract.value.Some? && ReportedSize(extract.value.value) <= MaxFileSize
             && extract.value.value.duration.Some? && extract.value.value.duration.value > MaxDuration) ==>
      DownloadVideo(extract, transfer, formatSize).result.error
        == Some(DurationLimitText(extract.value.value.duration.value))
    // an exception while transferring, and a file too large once on disk
    ensures DownloadVideo(extract, transfer, formatSize).transferStarted && transfer.DownloadError? ==>
      DownloadVideo(extract, transfer, formatSize).result.error == Some(DownloadErrorText(transfer.message))
    ensures DownloadVideo(extract, transfer, formatSize).transferStarted && transfer.Crashed? ==>
      DownloadVideo(extract, transfer, formatSize).result.error
        == Some("An unexpected error occurred: " + transfer.message)
    ensures DownloadVideo(extract, transfer, formatSize).removed.Some? ==>
      DownloadVideo(extract, transfer, formatSize).result.error
        == Some("Downloaded file too large (" + formatSize(transfer.value.value.size) + ")")
  {
  }

  /** A reported size strictly above the limit is rejected before the
      duration is looked at, and no transfer starts. */
  lemma SizeGuard(m: Metadata, transfer: Stage<Option<LocalFile>>, formatSize: int -> string)
    requires ReportedSize(m) > MaxFileSize
    ensures var run := DownloadVideo(Returned(Some(m)), transfer, formatSize);
      !run.transferStarted && run.result.error == Some(SizeLimitText(ReportedSize(m)))
  {
  }

  /** A video of exactly the limit is not rejected for its size. */
  lemma SizeAtLimitPasses(m: Metadata, transfer: Stage<Option<LocalFile>>, formatSize: int -> string)
    requires ReportedSize(m) == MaxFileSize
    requires m.duration.None? || m.duration.value <= MaxDuration
    ensures DownloadVideo(Returned(Some(m)), transfer, formatSize).transferStarted
  {
  }

  /** A duration is rejected exactly when it is over ten minutes and the size
      passed. */
  lemma DurationGuard(m: Metadata, transfer: Stage<Option<LocalFile>>, formatSize: int -> string)
    requires ReportedSize(m) <= MaxFileSize
    ensures var run := DownloadVideo(Returned(Some(m)), transfer, formatSize);
      && ((m.duration.Some? && m.duration.value > MaxDuration) <==> !run.transferStarted)
      && (m.duration.Some? && m.duration.value > MaxDuration ==>
            run.result.error == Some(DurationLimitText(m.duration.value)))
  {
  }

  // ---------------------------------------------------------------------------
  // The caption sent with a video

  /** Characters that would break Telegram's Markdown. */
  const MarkdownChars: set<char> := {'*', '_', '[', ']'}

  /** The four `.replace(c, '')` calls applied to the title and uploader. */
  function CleanMarkdown(s: string): string {
    Replace(Replace(Replace(Replace(s, ['*'], []), ['_'], []), ['['], []), [']'], [])
  }

  /** The four replacements together drop exactly the Markdown characters
      and keep the others in order. */
  lemma CleanMarkdownIsWithout(s: string)
    ensures CleanMarkdown(s) == Without(s, MarkdownChars)
    ensures forall i :: 0 <= i < |CleanMarkdown(s)| ==> CleanMarkdown(s)[i] !in MarkdownChars
  {
    var a := Replace(s, ['*'], []);
    ReplaceCharIsWithout(s, '*');
    assert a == Without(s, {'*'});
    var b := Replace(a, ['_'], []);
    ReplaceCharIsWithout(a, '_');
    WithoutTwice(s, {'*'}, {'_'});
    assert b == Without(s, {'*', '_'}) by { assert {'*'} + {'_'} == {'*', '_'}; }
    var c := Replace(b, ['['], []);
    ReplaceCharIsWithout(b, '[');
    WithoutTwice(s, {'*', '_'}, {'['});
    assert c == Without(s, {'*', '_', '['}) by { assert {'*', '_'} + {'['} == {'*', '_', '['}; }
    ReplaceCharIsWithout(c, ']');
    WithoutTwice(s, {'*', '_', '['}, {']'});
    assert {'*', '_', '['} + {']'} == MarkdownChars;
  }

  /** `clean_title[:50]` followed by `...` when the title was longer. */
  function ShortTitle(title: string): (r: string)
    ensures |title| <= 50 ==> r == title
    ensures |title| > 50 ==> |r| == 53 && StartsWith(title, r[..50]) && r[50..] == "..."
  {
    if |title| > 50 then title[..50] + "..." else title
  }

  /** The full caption; `sizeText` is the human-readable file size. */
  function Caption(title: string, platform: string, duration: int, uploader: string, sizeText: string): string {
    "\U{1F3A5} " + ShortTitle(CleanMarkdown(title)) + "\n\n"
      + "\U{1F4FA} Platform: " + platform + "\n"
      + "\U{23F1}\U{FE0F} Duration: " + DurationText(duration) + "\n"
      + "\U{1F464} Uploader: " + CleanMarkdown(uploader) + "\n"
      + "\U{1F4CA} Size: " + sizeText
  }

  /** `caption[:1024]`: what is sent is a prefix of the caption and fits
      Telegram's limit. */
  function SentCaption(title: string, platform: string, duration: int, uploader: string, sizeText: string): (r: string)
    ensures |r| <= 1024
    ensures StartsWith(Caption(title, platform, duration, uploader, sizeText), r)
    ensures |Caption(title, platform, duration, uploader, sizeText)| > 1024 ==> |r| == 1024
    ensures |Caption(title, platform, duration, uploader, sizeText)| <= 1024 ==>
      r == Caption(title, platform, duration, uploader, sizeText)
  {
    var c := Caption(title, platform, duration, uploader, sizeText);
    if |c| > 1024 then c[..1024] else c
  }

  // ---------------------------------------------------------------------------
  // handle_url

  datatype Reply =
    | SubscriptionPrompt
    | UnsupportedNotice
    | DownloadFailed(platform: string, error: string)
    | VideoSent(path: string, caption: string, platform: string)
    /** The `except` branch of `handle_url`: the status message names the
        platform and the first 100 characters of the exception text. */
    | ErrorOccurred(platform: string, detail: string)

  /** What `None.replace(...)` raises, as CPython words it. */
  const NoneReplaceError := "'NoneType' object has no attribute 'replace'"

  /** `str(e)[:100]` */
  function ErrorDetail(e: string): (r: string)
    ensures |r| <= 100 && StartsWith(e, r)
    ensures |e| > 100 ==> |r| == 100
    ensures |e| <= 100 ==> r == e
  {
    if |e| > 100 then e[..100] else e
  }

  /** The exception a successful download leads to while the video is sent:
      a null title or uploader fails on `.replace` before the upload, and
      otherwise `uploadError` is what sending the video raised, if anything. */
  function SendFailure(info: VideoInfo, uploadError: Option<string>): Option<string> {
    if info.title.None? || info.uploader.None? then Some(NoneReplaceError)
    else uploadError
  }

  /** `handle_url` for a message text, the subscription answer and the
      extraction library's behaviour; `formatSize` is `format_file_size`,
      and `uploadError` is the text of an exception Telegram raised while
      the video was sent. */
  function HandleUrl(text: string, subscribed: bool, extract: Stage<Option<Metadata>>,
                     transfer: Stage<Option<LocalFile>>, formatSize: int -> string,
                     uploadError: Option<string>): (reply: Reply)
    ensures !subscribed <==> reply == SubscriptionPrompt
    ensures subscribed && !IsSupportedUrl(Strip(text)) <==> reply == UnsupportedNotice
    // every reply after the two checks names the platform of the URL
    ensures (reply.DownloadFailed? || reply.VideoSent? || reply.ErrorOccurred?) ==>
      reply.platform == PlatformName(Strip(text)) != "Unknown"
    // a failed download shows download_video's own message
    ensures reply.DownloadFailed? <==>
      subscribed && IsSupportedUrl(Strip(text)) && !DownloadVideo(extract, transfer, formatSize).result.success
    ensures reply.DownloadFailed? ==> DownloadVideo(extract, transfer, formatSize).result.error == Some(reply.error)
    // after a successful download, sending fails on a null title or uploader, or on Telegram's error
    ensures reply.ErrorOccurred? <==>
      && subscribed && IsSupportedUrl(Strip(text))
      && DownloadVideo(extract, transfer, formatSize).result.success
      && SendFailure(DownloadVideo(extract, transfer, formatSize).result.info.value, uploadError).Some?
    ensures reply.ErrorOccurred? ==>
      var e := SendFailure(DownloadVideo(extract, transfer, formatSize).result.info.value, uploadError).value;
      reply.detail == ErrorDetail(e)
    // a sent video is the downloaded file with the caption built from its metadata
    ensures reply.VideoSent? ==>
      var result := DownloadVideo(extract, transfer, formatSize).result;
      && result.success && Some(reply.path) == result.filePath && reply.path != []
      && var info := result.info.value;
      && info.title.Some? && info.uploader.Some?
      && reply.caption == SentCaption(info.title.value, reply.platform, info.duration, info.uploader.value,
                                      formatSize(info.fileSize))
      && |reply.caption| <= 1024
  {
    var url := Strip(text);
    if !subscribed then SubscriptionPrompt
    else if !IsSupportedUrl(url) then UnsupportedNotice
    else
      SupportedIffNamed(url);
      var platform := PlatformName(url);
      var result := DownloadVideo(extract, transfer, formatSize).result;
      if !result.success then DownloadFailed(platform, result.error.value)
      else
        var info := result.info.value;
        match SendFailure(info, uploadError)
        case Some(e) => ErrorOccurred(platform, ErrorDetail(e))
        case None =>
          VideoSent(result.filePath.value,
                    SentCaption(info.title.value, platform, info.duration, info.uploader.value,
                                formatSize(info.fileSize)),
                    platform)
  }

  /** A video whose metadata holds a null title never reaches Telegram:
      the user is told that an error occurred, with the `.replace` error. */
  lemma NullTitleFails(text: string, meta: Metadata, file: LocalFile, formatSize: int -> string,
                       uploadError: Option<string>)
    requires IsSupportedUrl(Strip(text)) && PassesPreChecks(meta)
    requires file.path != [] && file.size <= MaxFileSize
    requires meta.title.Null?
    ensures HandleUrl(text, true, Returned(Some(meta)), Returned(Some(file)), formatSize, uploadError)
            == ErrorOccurred(PlatformName(Strip(text)), NoneReplaceError)
  {
  }
}
