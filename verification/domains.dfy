/** The domain helpers of the downloader's utility module: the list of
    supported sites, the reduction of a URL's authority to its main domain,
    and the support check built on it. */
module Domains {
  import opened Text
  import Urls

  const SupportedDomains: seq<string> := [
    "youtube.com", "youtu.be", "tiktok.com", "instagram.com",
    "vimeo.com", "dailymotion.com", "facebook.com", "fb.watch",
    "twitter.com", "x.com",
    "twitch.tv",
    "soundcloud.com", "bilibili.com", "nicovideo.jp", "vk.com",
    "pinterest.com", "reddit.com"]

  /** First labels that name a mobile or `www` variant of a site. */
  const VariantLabels: set<string> := {"www", "m", "mobile"}

  /** `'.' in d[1:]`: a dot somewhere after the first character. */
  predicate HasInnerDot(d: string) {
    exists i :: 1 <= i < |d| && d[i] == '.'
  }

  /** `[d for d in ds if '.' not in d[1:]]` */
  function ShortDomains(ds: seq<string>): (r: seq<string>)
    ensures forall d :: d in r ==> d in ds && !HasInnerDot(d)
    ensures forall d :: d in ds && !HasInnerDot(d) ==> d in r
  {
    if ds == [] then []
    else if HasInnerDot(ds[0]) then ShortDomains(ds[1..])
    else [ds[0]] + ShortDomains(ds[1..])
  }

  /** Every supported domain has a dot after its first character, so the
      list of short domains is empty and the branch that returns a short
      domain unchanged is never taken. */
  lemma NoShortDomains()
    ensures ShortDomains(SupportedDomains) == []
  {
    assert SupportedDomains[0][7] == '.';
    assert SupportedDomains[1][5] == '.';
    assert SupportedDomains[2][6] == '.';
    assert SupportedDomains[3][9] == '.';
    assert SupportedDomains[4][5] == '.';
    assert SupportedDomains[5][11] == '.';
    assert SupportedDomains[6][8] == '.';
    assert SupportedDomains[7][2] == '.';
    assert SupportedDomains[8][7] == '.';
    assert SupportedDomains[9][1] == '.';
    assert SupportedDomains[10][6] == '.';
    assert SupportedDomains[11][10] == '.';
    assert SupportedDomains[12][8] == '.';
    assert SupportedDomains[13][9] == '.';
    assert SupportedDomains[14][2] == '.';
    assert SupportedDomains[15][9] == '.';
    assert SupportedDomains[16][6] == '.';
    NoShortAmong(SupportedDomains);
  }

  lemma {:induction false} NoShortAmong(ds: seq<string>)
    requires forall d :: d in ds ==> HasInnerDot(d)
    ensures ShortDomains(ds) == []
  {
    if ds != [] {
      assert ds[0] in ds;
      NoShortAmong(ds[1..]);
    }
  }

  /** The main domain of an authority, given the list of short domains that
      are kept whole: lower-cased, without a leading `www`, `m` or `mobile`
      label when more than two labels remain, and otherwise cut to its last
      two labels. */
  function DomainWith(netloc: string, shorts: seq<string>): (d: string)
    ensures EndsWith(Lower(netloc), d)
  {
    var host := Lower(netloc);
    var labels := Split(host, '.');
    JoinSplit(host, '.');
    if |labels| > 2 && labels[0] in VariantLabels then
      JoinEndsWith(labels, ".", 1);
      Join(labels[1..], ".")
    else if host in shorts then host
    else if |labels| >= 2 then
      JoinEndsWith(labels, ".", |labels| - 2);
      Join(labels[|labels| - 2..], ".")
    else host
  }

  /** The domain `get_domain` computes from an authority. */
  function DomainOfNetloc(netloc: string): (d: string)
    ensures EndsWith(Lower(netloc), d)
  {
    DomainWith(netloc, ShortDomains(SupportedDomains))
  }

  /** The short-domain branch never fires. */
  lemma ShortBranchDead(netloc: string)
    ensures DomainOfNetloc(netloc) == DomainWith(netloc, [])
  {
    NoShortDomains();
  }

  /** With more than two labels and a variant first label, the main domain
      is every label but the first. */
  lemma DomainDropsVariant(netloc: string)
    requires var labels := Split(Lower(netloc), '.'); |labels| > 2 && labels[0] in VariantLabels
    ensures Split(DomainOfNetloc(netloc), '.') == Split(Lower(netloc), '.')[1..]
  {
    var labels := Split(Lower(netloc), '.');
    assert DomainOfNetloc(netloc) == Join(labels[1..], ".");
    SplitJoin(labels[1..], '.');
  }

  /** Otherwise, with at least two labels, the main domain is the last two. */
  lemma DomainKeepsLastTwo(netloc: string)
    requires var labels := Split(Lower(netloc), '.');
      |labels| >= 2 && !(|labels| > 2 && labels[0] in VariantLabels)
    ensures var labels := Split(Lower(netloc), '.');
      Split(DomainOfNetloc(netloc), '.') == labels[|labels| - 2..]
  {
    var labels := Split(Lower(netloc), '.');
    ShortBranchDead(netloc);
    LastTwoBranch(netloc, labels);
    SplitJoin(labels[|labels| - 2..], '.');
  }

  /** Without the variant label and the short domains, the third branch is
      taken. */
  lemma LastTwoBranch(netloc: string, labels: seq<string>)
    requires labels == Split(Lower(netloc), '.')
    requires |labels| >= 2 && !(|labels| > 2 && labels[0] in VariantLabels)
    ensures DomainWith(netloc, []) == Join(labels[|labels| - 2..], ".")
  {
  }

  /** An authority without a dot is kept whole. */
  lemma DomainOfSingleLabel(netloc: string)
    requires '.' !in Lower(netloc)
    ensures DomainOfNetloc(netloc) == Lower(netloc)
  {
    SplitWithout(Lower(netloc), '.');
    ShortBranchDead(netloc);
  }

  /** `get_domain`: `None` when parsing the URL raises. */
  function GetDomain(url: string): (r: Option<string>)
    ensures r.None? <==> Urls.UrlSplit(url).Err?
    ensures r.Some? ==> EndsWith(Lower(Urls.UrlSplit(url).value.netloc), r.value)
  {
    match Urls.UrlSplit(url)
    case Err(_) => None
    case Ok(parts) => Some(DomainOfNetloc(parts.netloc))
  }

  /** `is_supported_url`: the domain is non-empty and some supported domain
      occurs in it. An accepted URL's authority contains a supported domain. */
  function IsSupportedUrl(url: string): (ok: bool)
    ensures ok <==> && GetDomain(url).Some? && GetDomain(url).value != []
                    && exists i :: 0 <= i < |SupportedDomains| && Contains(GetDomain(url).value, SupportedDomains[i])
    ensures ok ==> Urls.UrlSplit(url).Ok?
    ensures ok ==> exists i :: 0 <= i < |SupportedDomains|
                     && Contains(Lower(Urls.UrlSplit(url).value.netloc), SupportedDomains[i])
  {
    match GetDomain(url)
    case None => false
    case Some(d) =>
      if d != [] && ContainsAny(d, SupportedDomains) then
        var i :| 0 <= i < |SupportedDomains| && Contains(d, SupportedDomains[i]);
        ContainsInEnd(Lower(Urls.UrlSplit(url).value.netloc), d, SupportedDomains[i]);
        true
      else false
  }

  /** Without `scheme://` the authority is empty, so the domain is empty and
      the URL is rejected. */
  lemma NoAuthorityRejected(url: string)
    requires !StartsWith(Urls.SplitScheme(url).1, "//")
    ensures GetDomain(url) == Some([])
    ensures !IsSupportedUrl(url)
  {
    NoShortDomains();
    assert Lower([]) == [];
    assert Split([], '.') == [[]];
  }

  /** `https://netflix.com` parses into scheme `https` and authority
      `netflix.com`. The URL is passed in pieces so that the verifier reasons
      about the parser's contract rather than evaluating it. */
  lemma NetflixSplits(scheme: string, host: string)
    requires scheme == "https" && host == "netflix.com"
    ensures Urls.UrlSplit(scheme + "://" + host) == Ok(Urls.UrlParts(scheme, host, []))
  {
    assert scheme + "://" + host + [] == scheme + "://" + host;
    HttpsScheme(scheme);
    NetflixAuthority(host);
    Urls.SplitAssembled(scheme, host, []);
  }

  lemma HttpsScheme(scheme: string)
    requires scheme == "https"
    ensures Urls.IsScheme(scheme) && ':' !in scheme && Lower(scheme) == scheme
  {
    LowerUnchanged(scheme);
  }

  lemma NetflixAuthority(host: string)
    requires host == "netflix.com"
    ensures '/' !in host && '?' !in host && '#' !in host && '[' !in host && ']' !in host
  {
  }

  /** `netflix.com` has the two labels `netflix` and `com` and is kept whole. */
  lemma NetflixLabels(host: string)
    requires host == "netflix.com"
    ensures DomainWith(host, []) == host
  {
    var a, b := "netflix", "com";
    assert '.' !in a && '.' !in b;
    SplitCons(a, b, '.');
    SplitWithout(b, '.');
    assert a + ['.'] + b == host;
    NetflixLower(host);
    TwoLabelsKept(host);
  }

  lemma NetflixLower(host: string)
    requires host == "netflix.com"
    ensures Lower(host) == host
  {
    assert forall i :: 0 <= i < |host| ==> !IsAsciiUpper(host[i]);
    LowerUnchanged(host);
  }

  /** An authority of exactly two labels is its own main domain. */
  lemma TwoLabelsKept(netloc: string)
    requires |Split(Lower(netloc), '.')| == 2
    ensures DomainWith(netloc, []) == Lower(netloc)
  {
    var labels := Split(Lower(netloc), '.');
    JoinSplit(Lower(netloc), '.');
    assert labels[|labels| - 2..] == labels;
  }

  lemma NetflixDomain(scheme: string, host: string)
    requires scheme == "https" && host == "netflix.com"
    ensures GetDomain(scheme + "://" + host) == Some(host)
  {
    NetflixSplits(scheme, host);
    NetflixLabels(host);
    ShortBranchDead(host);
  }

  lemma NetflixUnlisted(host: string)
    requires host == "netflix.com"
    ensures host !in SupportedDomains
    ensures Contains(host, SupportedDomains[9])
  {
    assert OccursAt(host, SupportedDomains[9], 6);
    ContainsAt(host, SupportedDomains[9]);
    forall k | 0 <= k < |SupportedDomains|
      ensures SupportedDomains[k] != host
    {
      assert |SupportedDomains[k]| != 11 || SupportedDomains[k][0] != 'n';
    }
  }

  /** The substring test accepts `https://netflix.com`, a site that is not on
      the list: `x.com` occurs in `netflix.com`. */
  lemma SubstringAcceptsUnlisted(scheme: string, host: string)
    requires scheme == "https" && host == "netflix.com"
    ensures IsSupportedUrl(scheme + "://" + host)
    ensures host !in SupportedDomains
  {
    NetflixDomain(scheme, host);
    NetflixUnlisted(host);
    var url := scheme + "://" + host;
    assert GetDomain(url).value != [];
    assert ContainsAny(GetDomain(url).value, SupportedDomains);
  }

  /** The check as evidently intended: the main domain is one of the
      supported domains. */
  function IsSupportedUrlExact(url: string): (ok: bool)
    ensures ok <==> GetDomain(url).Some? && GetDomain(url).value in SupportedDomains
  {
    match GetDomain(url)
    case None => false
    case Some(d) => d in SupportedDomains
  }

  /** Every URL the exact check accepts, the substring check accepts too. */
  lemma ExactRefinesSubstring(url: string)
    ensures IsSupportedUrlExact(url) ==> IsSupportedUrl(url)
  {
    if IsSupportedUrlExact(url) {
      var d := GetDomain(url).value;
      SupportedNonEmpty(d);
      ListedContained(d, SupportedDomains);
    }
  }

  lemma SupportedNonEmpty(d: string)
    requires d in SupportedDomains
    ensures d != []
  {
    var i :| 0 <= i < |SupportedDomains| && SupportedDomains[i] == d;
    assert |SupportedDomains[i]| > 0;
  }

  /** A listed string contains itself. */
  lemma ListedContained(d: string, ds: seq<string>)
    requires d in ds
    ensures ContainsAny(d, ds)
  {
    var i :| 0 <= i < |ds| && ds[i] == d;
    assert StartsWith(d, d);
  }

  /** The exact check rejects `https://netflix.com`. */
  lemma ExactRejectsUnlisted(scheme: string, host: string)
    requires scheme == "https" && host == "netflix.com"
    ensures !IsSupportedUrlExact(scheme + "://" + host)
  {
    NetflixDomain(scheme, host);
    NetflixUnlisted(host);
  }
}
