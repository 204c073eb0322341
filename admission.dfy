/**
 * The admission pipeline of the handler: the rate limit, then the canonical
 * host check, the HTTPS upgrade and the "www." redirect, the first check that
 * triggers ending the request.
 */
module Admission {
  import opened Wrappers
  import opened RateLimit

  /** The parts of a request URL that the redirects touch; `path` stands for everything after the host. */
  datatype Url = Url(scheme: string, host: string, path: string)

  /**
   * An incoming request: the parsed client address (None when RemoteAddr
   * cannot be split or parsed), the Host header, whether it came over TLS
   * (`request.TLS != nil`) and its URL.
   */
  datatype Request = Request(remote: Option<Addr>, host: string, tls: bool, url: Url)

  /** What the pipeline answers: 429, 400, 301 with a location, or hand the request on to routing. */
  datatype Response =
    | TooManyRequests(retryAfter: Option<int>)
    | BadRequest
    | MovedPermanently(location: Url)
    | Route(request: Request)

  const StatusTooManyRequests: int := 429
  const StatusBadRequest: int := 400
  const StatusMovedPermanently: int := 301

  /** The status written by the pipeline itself; routing writes its own. */
  function Status(resp: Response): Option<int>
  {
    match resp
    case TooManyRequests(_) => Some(StatusTooManyRequests)
    case BadRequest => Some(StatusBadRequest)
    case MovedPermanently(_) => Some(StatusMovedPermanently)
    case Route(_) => None
  }

  /** Go's `strings.Split(s, sep)` for a one-character separator. */
  function Split(s: string, sep: char): (parts: seq<string>)
    // one part more than there are separators, and never an empty list
    ensures |parts| == multiset(s)[sep] + 1
    // the parts hold no separator
    ensures forall i :: 0 <= i < |parts| ==> sep !in parts[i]
    decreases |s|
  {
    if s == [] then [""]
    else
      var rest := Split(s[1..], sep);
      assert s == [s[0]] + s[1..];
      if s[0] == sep then
        [""] + rest
      else
        [[s[0]] + rest[0]] + rest[1..]
  }

  /** Putting the separators back between the parts gives the string again. */
  lemma {:induction false} JoinSplit(s: string, sep: char)
    ensures Join(Split(s, sep), sep) == s
    decreases |s|
  {
    if s != [] {
      var rest := Split(s[1..], sep);
      JoinSplit(s[1..], sep);
      assert s == [s[0]] + s[1..];
      if s[0] == sep {
        JoinSeparator(rest, sep);
      } else {
        JoinPrepend(s[0], rest, sep);
      }
    }
  }

  lemma JoinSeparator(parts: seq<string>, sep: char)
    requires |parts| > 0
    ensures Join([""] + parts, sep) == [sep] + Join(parts, sep)
  {
    assert ([""] + parts)[1..] == parts;
  }

  lemma JoinPrepend(c: char, parts: seq<string>, sep: char)
    requires |parts| > 0
    ensures Join([[c] + parts[0]] + parts[1..], sep) == [c] + Join(parts, sep)
  {
    var longer := [[c] + parts[0]] + parts[1..];
    assert longer[1..] == parts[1..];
  }

  /** `strings.Join(parts, string(sep))` for a non-empty list. */
  function Join(parts: seq<string>, sep: char): string
    requires |parts| > 0
    decreases |parts|
  {
    if |parts| == 1 then parts[0] else parts[0] + [sep] + Join(parts[1..], sep)
  }

  /** A string without the separator is one part. */
  lemma {:induction false} SplitWhole(s: string, sep: char)
    requires sep !in s
    ensures Split(s, sep) == [s]
    decreases |s|
  {
    if s != [] {
      SplitWhole(s[1..], sep);
      assert [s[0]] + s[1..] == s;
    }
  }

  /** Splitting at the first separator. */
  lemma {:induction false} SplitFirst(p: string, sep: char, r: string)
    requires sep !in p
    ensures Split(p + [sep] + r, sep) == [p] + Split(r, sep)
    decreases |p|
  {
    var s := p + [sep] + r;
    if p == [] {
      assert s == [sep] + r;
      assert s[1..] == r;
    } else {
      assert s[1..] == p[1..] + [sep] + r;
      SplitFirst(p[1..], sep, r);
      assert [p[0]] + p[1..] == p;
    }
  }

  /** Splitting undoes joining parts that hold no separator. */
  lemma {:induction false} SplitJoin(parts: seq<string>, sep: char)
    requires |parts| > 0
    requires forall i :: 0 <= i < |parts| ==> sep !in parts[i]
    ensures Split(Join(parts, sep), sep) == parts
    decreases |parts|
  {
    if |parts| == 1 {
      SplitWhole(parts[0], sep);
    } else {
      SplitJoin(parts[1..], sep);
      SplitFirst(parts[0], sep, Join(parts[1..], sep));
      assert [parts[0]] + parts[1..] == parts;
    }
  }

  /** checkHost: the Host header differs from the configured canonical host. */
  predicate WrongHost(canonical: string, req: Request)
  {
    req.host != canonical
  }

  /** The URL checkHTTPS redirects to: scheme `https`, host from the Host header. */
  function Upgraded(req: Request): Url
  {
    req.url.(scheme := "https", host := req.host)
  }

  /** The URL checkWWW redirects to: host `www.` plus the Host header, scheme as it was. */
  function WithWww(req: Request): Url
  {
    req.url.(host := "www." + req.host)
  }

  /** checkHTTPS: a plaintext request is redirected to its secure form. */
  function CheckHTTPS(req: Request): (redirect: Option<Url>)
    ensures redirect.Some? <==> !req.tls
    // the target is secure, names the requested host and keeps the path
    ensures redirect.Some? ==>
              && redirect.value.scheme == "https"
              && redirect.value.host == req.host
              && redirect.value.path == req.url.path
  {
    if !req.tls then Some(Upgraded(req)) else None
  }

  /** checkWWW: a host of exactly two dot-separated labels gains a `www.` label. */
  function CheckWWW(req: Request): (redirect: Option<Url>)
    // two labels means exactly one dot in the host
    ensures redirect.Some? <==> multiset(req.host)['.'] == 1
    // the target prefixes the host with "www." and keeps scheme and path
    ensures redirect.Some? ==>
              && redirect.value.host == "www." + req.host
              && redirect.value.scheme == req.url.scheme
              && redirect.value.path == req.url.path
  {
    if |Split(req.host, '.')| == 2 then Some(WithWww(req)) else None
  }

  /**
   * ServeHTTP: the records after the request and the response, for a handler
   * whose canonical host is `host` (empty when none is configured) and whose
   * TLS flag is `tls`.
   */
  function Serve(host: string, tls: bool, table: Table, req: Request, now: int): (out: (Table, Response))
    // only the rate limiter reads or changes the records, and it is consulted first, on every request
    ensures out.0 == Admit(table, req.remote, now).0
    ensures var v := Admit(table, req.remote, now).1;
            && (out.1.TooManyRequests? <==> v.TooMany?)
            && (out.1.TooManyRequests? ==> out.1.retryAfter == v.retryAfter)
            // then a wrong Host header, when a canonical host is configured
            && (out.1.BadRequest? <==> v == Allow && host != "" && req.host != host)
            // then a plaintext request, when TLS is on
            && (out.1 == MovedPermanently(Upgraded(req)) <==>
                  v == Allow && (host == "" || req.host == host) && tls && !req.tls)
            // then a two-label host, when a canonical host is configured
            && (out.1 == MovedPermanently(WithWww(req)) <==>
                  v == Allow && host != "" && req.host == host && !(tls && !req.tls) &&
                  multiset(req.host)['.'] == 1)
            // and a request none of them stops goes on, unchanged, to routing
            && (out.1.Route? <==>
                  v == Allow && (host == "" || req.host == host) && !(tls && !req.tls) &&
                  !(host != "" && multiset(req.host)['.'] == 1))
            && (out.1.Route? ==> out.1.request == req)
    // the status the pipeline writes: 429 from the limiter, 400 from the host check, 301 from either
    // redirect, and none of its own when the request is routed
    ensures var v := Admit(table, req.remote, now).1;
            && (Status(out.1) == Some(StatusTooManyRequests) <==> v.TooMany?)
            && (Status(out.1) == Some(StatusBadRequest) <==> v == Allow && host != "" && req.host != host)
            && (Status(out.1) == Some(StatusMovedPermanently) <==>
                  v == Allow && (host == "" || req.host == host) &&
                  ((tls && !req.tls) || (host != "" && multiset(req.host)['.'] == 1)))
            && (Status(out.1).None? <==> out.1.Route?)
    // without a canonical host (and so without TLS) only the rate limit can stop a request
    ensures host == "" && !tls ==> out.1.TooManyRequests? || out.1.Route?
  {
    var (table', v) := Admit(table, req.remote, now);
    assert |"www." + req.host| != |req.host|;
    if v.TooMany? then (table', TooManyRequests(v.retryAfter))
    else if host != "" && WrongHost(host, req) then (table', BadRequest)
    else if tls && CheckHTTPS(req).Some? then (table', MovedPermanently(CheckHTTPS(req).value))
    else if host != "" && CheckWWW(req).Some? then (table', MovedPermanently(CheckWWW(req).value))
    else (table', Route(req))
  }

  /**
   * checkHost in the pipeline: with a canonical host configured, a request
   * that the limiter lets through gets any answer other than 400 only when its
   * Host header is exactly the canonical host.
   */
  lemma OnlyCanonicalHostPasses(host: string, tls: bool, table: Table, req: Request, now: int)
    requires host != ""
    ensures var out := Serve(host, tls, table, req, now).1;
            !out.TooManyRequests? && !out.BadRequest? ==> req.host == host && !WrongHost(host, req)
    ensures Admit(table, req.remote, now).1 == Allow ==>
              (Serve(host, tls, table, req, now).1.BadRequest? <==> WrongHost(host, req))
  {
  }
}
