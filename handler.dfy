/**
 * defaultHandler: the canonical host, the TLS flag and the table of client
 * records, which every request updates in place.
 */
module Handlers {
  import opened Wrappers
  import opened RateLimit
  import opened Admission

  class Handler {
    /** The canonical host; empty when none is configured. */
    const Host: string
    /** Whether plaintext requests are upgraded to HTTPS. */
    const TLS: bool
    var records: Table
    /** The latest clock reading applied to the table; requests are applied in the order of their readings. */
    ghost var Clock: int

    ghost predicate Valid()
      reads this
    {
      && (TLS ==> Host != "")
      && SoundTable(records, Clock)
    }

    /**
     * newHandler: TLS is on when a domain is configured and there is at
     * least one HTTPS listener; the table starts empty.
     */
    constructor (domain: string, httpsListeners: nat, ghost clock: int)
      ensures Valid()
      ensures Host == domain
      ensures TLS <==> domain != "" && httpsListeners > 0
      ensures records == map[] && Clock == clock
    {
      Host := domain;
      TLS := domain != "" && httpsListeners > 0;
      records := map[];
      Clock := clock;
    }

    /**
     * checkLimit: `remote` is RemoteAddr after SplitHostPort, ParseIP and
     * To16 (None when one of them fails), `now` the time of the request.
     * Returns whether the request is prevented and the Retry-After value set
     * on a new block.
     */
    method CheckLimit(remote: Option<Addr>, now: int) returns (prevent: bool, retryAfter: Option<int>)
      requires Valid() && Clock <= now
      modifies this
      ensures Valid() && Clock == now
      ensures records == Admit(old(records), remote, now).0
      ensures (if prevent then TooMany(retryAfter) else Allow) == Admit(old(records), remote, now).1
      ensures !prevent ==> retryAfter.None?
    {
      AdmitKeepsSound(records, Clock, remote, now);
      Clock := now;
      retryAfter := None;
      if remote.None? {
        return true, None;
      }
      var key := remote.value;
      if key !in records {
        records := records[key := Record(None, now, 1)];
        return false, None;
      }
      var record := records[key];
      if record.blockedUntil.Some? {
        if now > record.blockedUntil.value {
          record := record.(blockedUntil := None);
        } else {
          return true, None;
        }
      }
      if record.firstRequest + Week < now {
        record := record.(firstRequest := now, requestCount := 1);
        records := records[key := record];
        return false, None;
      }
      record := record.(requestCount := record.requestCount + 1);
      var elapsed := now - record.firstRequest;
      if OverBudget(record.requestCount, elapsed) {
        var d := Minute + elapsed;
        retryAfter := Some(CeilSeconds(d));
        record := record.(blockedUntil := Some(now + d));
        records := records[key := record];
        return true, retryAfter;
      }
      records := records[key := record];
      return false, None;
    }

    /**
     * ServeHTTP, up to the hand-over to routing: the checks in order limit,
     * host, HTTPS, www, the first that triggers giving the response.
     */
    method ServeHTTP(req: Request, now: int) returns (resp: Response)
      requires Valid() && Clock <= now
      modifies this
      ensures Valid() && Clock == now
      ensures (records, resp) == Serve(Host, TLS, old(records), req, now)
    {
      var prevent, retryAfter := CheckLimit(req.remote, now);
      if prevent {
        return TooManyRequests(retryAfter);
      }
      if Host != "" && WrongHost(Host, req) {
        return BadRequest;
      }
      if TLS {
        var upgrade := CheckHTTPS(req);
        if upgrade.Some? {
          return MovedPermanently(upgrade.value);
        }
      }
      if Host != "" {
        var www := CheckWWW(req);
        if www.Some? {
          return MovedPermanently(www.value);
        }
      }
      return Route(req);
    }
  }
}
