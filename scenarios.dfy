/**
 * Concrete behaviours of the admission handler at its boundaries.
 */
module Scenarios {
  import opened Wrappers
  import opened RateLimit
  import opened Admission

  /**
   * The threshold is strict: at the very start of a window the 100th request
   * is let through and the 101st is blocked for one minute, with Retry-After 60.
   */
  lemma ThresholdIsStrict(t: int)
    ensures Visit(Record(None, t, 99), t) == (Record(None, t, 100), Allow)
    ensures Visit(Record(None, t, 100), t) == (Record(Some(t + Minute), t, 101), TooMany(Some(60)))
  {
    assert CeilSeconds(Minute) == 60;
  }

  /**
   * A block holds through its last instant: a request at exactly
   * `blockedUntil` is still rejected, while one a nanosecond later clears it.
   */
  lemma BlockHoldsThroughItsEnd(r: Record, until: int)
    requires r.blockedUntil == Some(until)
    ensures Visit(r, until) == (r, TooMany(None))
    ensures Visit(r, until + 1).1 != TooMany(None)
  {
  }

  /**
   * A block still in force outlives the window: a request after the week is
   * over is rejected, not granted a new window, while the block lasts.
   */
  lemma StaleWindowStillBlocked(t: int)
    ensures Stale(Record(Some(t + 2 * Week), t, 60000), t + Week + 1)
    ensures Visit(Record(Some(t + 2 * Week), t, 60000), t + Week + 1).1 == TooMany(None)
  {
  }

  const ExampleAddr: Addr := [0, 0, 0, 0, 0, 0, 0, 0, 0, 0, 255, 255, 192, 0, 2, 1]

  /** With canonical host example.com and TLS on, a plaintext request is sent to https://example.com, same path. */
  lemma ExampleComUpgrade(path: string, now: int)
    ensures Serve("example.com", true, map[],
                  Request(Some(ExampleAddr), "example.com", false, Url("", "", path)), now).1
            == MovedPermanently(Url("https", "example.com", path))
  {
    var req := Request(Some(ExampleAddr), "example.com", false, Url("", "", path));
    assert Admit(map[], req.remote, now).1 == Allow;
    assert Upgraded(req) == Url("https", "example.com", path);
  }

  /**
   * With a bare two-label canonical host such as example.com and TLS on, a
   * secure request to it is sent to the www. form of the host, same scheme and path.
   */
  lemma BareDomainAddsWww(name: string, tld: string, scheme: string, path: string, remote: Addr, now: int)
    requires '.' !in name && '.' !in tld
    ensures var host := name + "." + tld;
            Serve(host, true, map[], Request(Some(remote), host, true, Url(scheme, "", path)), now).1
            == MovedPermanently(Url(scheme, "www." + host, path))
  {
    var host := name + "." + tld;
    assert multiset(host) == multiset(name) + multiset(".") + multiset(tld);
    assert multiset(host)['.'] == 1;
    assert Admit(map[], Some(remote), now).1 == Allow;
  }

  /**
   * The host check and the www redirect cannot both be satisfied: the host a
   * request is redirected to by the www check differs from the canonical host,
   * so the follow-up request is never routed.
   */
  lemma WwwTargetNeverRouted(host: string, tls: bool, table: Table, req: Request, now: int,
                             table2: Table, now2: int)
    requires Serve(host, tls, table, req, now).1 == MovedPermanently(WithWww(req))
    ensures var follow := req.(host := "www." + req.host);
            Serve(host, tls, table2, follow, now2).1.TooManyRequests? ||
            Serve(host, tls, table2, follow, now2).1.BadRequest?
  {
    assert |"www." + req.host| != |req.host|;
  }
}
