/** The part of `urllib.parse.urlparse` the bot relies on: the scheme, the
    authority ("netloc", section 3.2 of RFC 3986: after `//`, up to the next
    `/`, `?` or `#`), the path, and the `hostname` read from the authority. */
module Urls {
  import opened Text

  datatype UrlParts = UrlParts(scheme: string, netloc: string, path: string)

  /** Characters Python accepts in a scheme name. */
  predicate IsSchemeChar(c: char) {
    IsAlnum(c) || c == '+' || c == '-' || c == '.'
  }

  /** A non-empty scheme that starts with a letter. */
  predicate IsScheme(s: string) {
    |s| > 0 && IsAsciiLetter(s[0]) && forall j :: 0 <= j < |s| ==> IsSchemeChar(s[j])
  }

  /** Splits off `scheme:` when the text before the first `:` is a scheme;
      otherwise the scheme is empty and the whole text remains. */
  function SplitScheme(url: string): (r: (string, string))
    ensures r.0 == [] ==> r.1 == url
    ensures r.0 != [] ==> exists i :: 0 < i < |url| && url[i] == ':' && ':' !in url[..i]
                                   && IsScheme(url[..i]) && r.0 == Lower(url[..i]) && r.1 == url[i + 1..]
  {
    match IndexOf(url, ':')
    case None => ([], url)
    case Some(i) =>
      if IsScheme(url[..i]) then (Lower(url[..i]), url[i + 1..]) else ([], url)
  }

  /** The path: what remains after the authority, up to a query or fragment. */
  function PathOf(s: string): (p: string)
    ensures StartsWith(s, p)
    ensures '?' !in p && '#' !in p
  {
    var k := FirstOfAny(s, {'?', '#'});
    assert forall c :: c in s[..k] ==> c != '?' && c != '#';
    s[..k]
  }

  /** `urlsplit(url)`: `Err` is the `ValueError` raised for an authority with
      only one of `[` and `]`. */
  function UrlSplit(url: string): (r: Result<UrlParts>)
    ensures r.Ok? ==> '/' !in r.value.netloc && '?' !in r.value.netloc && '#' !in r.value.netloc
    ensures r.Ok? ==> ('[' in r.value.netloc <==> ']' in r.value.netloc)
    ensures !StartsWith(SplitScheme(url).1, "//") ==> r.Ok? && r.value.netloc == []
  {
    var (scheme, rest) := SplitScheme(url);
    if StartsWith(rest, "//") then
      var after := rest[2..];
      var k := FirstOfAny(after, {'/', '?', '#'});
      var netloc := after[..k];
      assert forall c :: c in netloc ==> c != '/' && c != '?' && c != '#';
      if ('[' in netloc) != (']' in netloc) then Err("Invalid IPv6 URL")
      else Ok(UrlParts(scheme, netloc, PathOf(after[k..])))
    else Ok(UrlParts(scheme, [], PathOf(rest)))
  }

  lemma SplitSchemeOf(scheme: string, rest: string)
    requires IsScheme(scheme) && ':' !in scheme
    ensures SplitScheme(scheme + ":" + rest) == (Lower(scheme), rest)
  {
    var url := scheme + ":" + rest;
    assert url[..|scheme|] == scheme;
    IndexOfIs(url, ':', |scheme|);
    assert url[|scheme| + 1..] == rest;
  }

  lemma NetlocEnds(netloc: string, path: string)
    requires '/' !in netloc && '?' !in netloc && '#' !in netloc
    requires path == [] || path[0] == '/'
    ensures FirstOfAny(netloc + path, {'/', '?', '#'}) == |netloc|
  {
    var after := netloc + path;
    forall i | 0 <= i < |netloc|
      ensures after[i] !in {'/', '?', '#'}
    {
      assert after[i] == netloc[i] && netloc[i] in netloc;
    }
    FirstOfAnyIs(after, {'/', '?', '#'}, |netloc|);
  }

  lemma PathWhole(path: string)
    requires '?' !in path && '#' !in path
    ensures PathOf(path) == path
  {
    forall i | 0 <= i < |path|
      ensures path[i] !in {'?', '#'}
    {
      assert path[i] in path;
    }
    FirstOfAnyIs(path, {'?', '#'}, |path|);
  }

  /** A URL assembled from a scheme, an authority and a path splits back into
      those parts. */
  lemma SplitAssembled(scheme: string, netloc: string, path: string)
    requires IsScheme(scheme)
    requires '/' !in netloc && '?' !in netloc && '#' !in netloc && ':' !in scheme
    requires '[' !in netloc && ']' !in netloc
    requires path == [] || path[0] == '/'
    requires '?' !in path && '#' !in path
    ensures UrlSplit(scheme + "://" + netloc + path) == Ok(UrlParts(Lower(scheme), netloc, path))
  {
    var rest := "//" + (netloc + path);
    assert scheme + "://" + netloc + path == scheme + ":" + rest;
    SplitSchemeOf(scheme, rest);
    assert rest[2..] == netloc + path;
    NetlocEnds(netloc, path);
    assert (netloc + path)[..|netloc|] == netloc;
    assert (netloc + path)[|netloc|..] == path;
    PathWhole(path);
  }

  /** The authority without the user information before its last `@`. */
  function HostInfo(netloc: string): (r: string)
    ensures '@' !in r
  {
    match LastIndexOf(netloc, '@')
    case Some(a) => netloc[a + 1..]
    case None => netloc
  }

  /** The host of `host:port`, or of `[host]:port`. */
  function HostOfInfo(info: string): string {
    match IndexOf(info, '[')
    case Some(b) =>
      var bracketed := info[b + 1..];
      (match IndexOf(bracketed, ']')
       case Some(e) => bracketed[..e]
       case None => bracketed)
    case None =>
      (match IndexOf(info, ':')
       case Some(p) => info[..p]
       case None => info)
  }

  /** `urlparse(url).hostname`: the authority without user information and
      port, lower-cased up to a `%` zone index; `None` when empty. */
  function Hostname(netloc: string): (r: Option<string>)
    ensures r.Some? ==> |r.value| > 0
  {
    var host := HostOfInfo(HostInfo(netloc));
    if host == [] then None
    else match IndexOf(host, '%')
      case Some(p) => Some(Lower(host[..p]) + host[p..])
      case None => Some(Lower(host))
  }

  lemma HostInfoAfterAt(user: string, info: string)
    requires '@' !in info
    ensures HostInfo(user + "@" + info) == info
  {
    var n := user + "@" + info;
    assert n[|user| + 1..] == info;
    LastIndexOfIs(n, '@', |user|);
  }

  lemma HostOfPlainInfo(host: string, port: string)
    requires '[' !in host && ':' !in host && '[' !in port
    ensures HostOfInfo(host + ":" + port) == host
  {
    var info := host + ":" + port;
    forall i | 0 <= i < |info|
      ensures info[i] != '['
    {
      if i < |host| {
        assert info[i] == host[i] && host[i] in host;
      } else if i > |host| {
        assert info[i] == port[i - |host| - 1] && port[i - |host| - 1] in port;
      }
    }
    assert info[..|host|] == host;
    IndexOfIs(info, ':', |host|);
  }

  /** The host of `user@host:port` is the lower-cased host. */
  lemma HostnameOfAuthority(user: string, host: string, port: string)
    requires |host| > 0
    requires '@' !in host && '[' !in host && ':' !in host && '%' !in host
    requires '@' !in port && '[' !in port
    ensures Hostname(host) == Some(Lower(host))
    ensures Hostname(user + "@" + host + ":" + port) == Some(Lower(host))
  {
    var info := host + ":" + port;
    NoAtAroundColon(host, port);
    var n := user + "@" + host + ":" + port;
    AppendAssoc(user + "@", host + ":", port);
    AppendAssoc(user + "@", host, ":");
    HostInfoAfterAt(user, info);
    HostOfPlainInfo(host, port);
    HostnameFromHost(n, host);
    HostnameOfBareHost(host);
  }

  lemma NoAtAroundColon(host: string, port: string)
    requires '@' !in host && '@' !in port
    ensures '@' !in host + ":" + port
  {
    var info := host + ":" + port;
    forall i | 0 <= i < |info|
      ensures info[i] != '@'
    {
      if i < |host| {
        assert info[i] == host[i] && host[i] in host;
      } else if i > |host| {
        assert info[i] == port[i - |host| - 1] && port[i - |host| - 1] in port;
      }
    }
  }

  lemma HostnameOfBareHost(host: string)
    requires |host| > 0
    requires '@' !in host && '[' !in host && ':' !in host && '%' !in host
    ensures Hostname(host) == Some(Lower(host))
  {
    assert HostInfo(host) == host && HostOfInfo(host) == host;
    HostnameFromHost(host, host);
  }

  /** A host without a zone index is reported lower-cased. */
  lemma HostnameFromHost(netloc: string, host: string)
    requires HostOfInfo(HostInfo(netloc)) == host
    requires |host| > 0 && '%' !in host
    ensures Hostname(netloc) == Some(Lower(host))
  {
  }
}
