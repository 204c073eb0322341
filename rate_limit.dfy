/**
 * The per-client rate limiter of the admission handler, as functions on values.
 *
 * Time is counted in integer nanoseconds, as Go's time.Duration counts it. A
 * client's record holds the start of its counting window, the number of
 * requests seen in that window and, optionally, the end of a block. A request
 * from a known client either meets a block still in force (rejected, nothing
 * changes), or it restarts a window older than a week, or it is counted and
 * measured against the threshold "rate above one request per ten seconds, with
 * a thousand seconds of grace".
 */
module RateLimit {
  import opened Wrappers

  newtype byte = b: int | 0 <= b < 256

  /** A client address normalised to 16 bytes (IPv4 in its IPv4-mapped IPv6 form). */
  type Addr = s: seq<byte> | |s| == 16 witness [0, 0, 0, 0, 0, 0, 0, 0, 0, 0, 0, 0, 0, 0, 0, 0]

  const Second: int := 1_000_000_000
  const Minute: int := 60 * Second
  /** The length of a counting window, `time.Hour * 24 * 7`. */
  const Week: int := 7 * 24 * 60 * Minute
  /** The 1000 seconds added to the window's age in the denominator of the rate. */
  const Grace: int := 1000 * Second
  /** The largest request count a record can hold (see SoundBoundsCount). */
  const MaxCount: int := 60581

  /** ipRecord: an absent blockedUntil is Go's nil pointer. */
  datatype Record = Record(blockedUntil: Option<int>, firstRequest: int, requestCount: int)

  /** The handler's records map; a map holds at most one record per address. */
  type Table = map<Addr, Record>

  /** What checkLimit decides: let the request through, or answer 429 with an optional Retry-After in seconds. */
  datatype Verdict = Allow | TooMany(retryAfter: Option<int>)

  /** The record of a client at the time of a new request. */
  function Fresh(now: int): Record
  {
    Record(None, now, 1)
  }

  /** A block is in force until `now` is strictly after its end (`now.After(*blockedUntil)`). */
  predicate StillBlocked(r: Record, now: int)
  {
    r.blockedUntil.Some? && now <= r.blockedUntil.value
  }

  /** `firstRequest.Add(Week).Before(now)`. */
  predicate Stale(r: Record, now: int)
  {
    r.firstRequest + Week < now
  }

  /**
   * The source's test `float64(count) / (1000 + elapsed.Seconds()) > 0.1`,
   * read over the exact reals. It is the reference the integer test below is
   * proved against.
   */
  ghost predicate RateExceeded(count: int, elapsed: int)
    requires elapsed >= 0
  {
    (count as real) / (1000.0 + (elapsed as real) / (Second as real)) > 0.1
  }

  /** The same threshold in integer nanoseconds: `count * 10^10 > 10^12 + elapsed`. */
  predicate OverBudget(count: int, elapsed: int)
  {
    10 * Second * count > Grace + elapsed
  }

  /** For a window whose age is not negative, the integer test is exactly the rate test. */
  lemma RateTestExact(count: int, elapsed: int)
    requires elapsed >= 0
    ensures RateExceeded(count, elapsed) <==> OverBudget(count, elapsed)
  {
    var s := Second as real;
    var c := count as real;
    var d := 1000.0 + (elapsed as real) / s;
    assert d * s == Grace as real + elapsed as real;
    assert d > 0.0;
    var q := c / d;
    assert q * d == c;
    if q > 0.1 {
      ProductSign(q - 0.1, d);
      assert c - 0.1 * d > 0.0;
      assert 10.0 * c > d;
    } else {
      ProductSign(0.1 - q, d);
      assert 0.1 * d - c >= 0.0;
      assert 10.0 * c <= d;
    }
    assert 10.0 * c * s == (10 * Second * count) as real;
  }

  lemma ProductSign(x: real, y: real)
    requires y > 0.0
    ensures x > 0.0 ==> x * y > 0.0
    ensures x >= 0.0 ==> x * y >= 0.0
  {
  }

  /** `int(math.Ceil(d.Seconds()))`: the duration `d` rounded up to whole seconds. */
  function CeilSeconds(d: int): (s: int)
    ensures (s - 1) * Second < d <= s * Second
  {
    (d + Second - 1) / Second
  }

  /**
   * checkLimit for a client that already has a record: the new record and
   * the verdict.
   */
  function Visit(r: Record, now: int): (out: (Record, Verdict))
    // a block in force, up to and including its last instant, rejects without a hint and changes nothing
    ensures StillBlocked(r, now) ==> out == (r, TooMany(None))
    // otherwise a window older than a week restarts, and the request goes through whatever the count was
    ensures !StillBlocked(r, now) && Stale(r, now) ==> out == (Fresh(now), Allow)
    // otherwise the request is counted in the current window and judged by the threshold
    ensures !StillBlocked(r, now) && !Stale(r, now) ==>
              && out.0.firstRequest == r.firstRequest
              && out.0.requestCount == r.requestCount + 1
              && (out.1.TooMany? <==> OverBudget(r.requestCount + 1, now - r.firstRequest))
    // a request let through leaves no block behind: an expired one is cleared, not kept at a past time
    ensures out.1 == Allow ==> out.0.blockedUntil.None?
    // a new block lasts a minute plus the window's age, and Retry-After is that length rounded up to seconds
    ensures out.1.TooMany? && out.1.retryAfter.Some? ==>
              && out.0.blockedUntil == Some(now + Minute + (now - r.firstRequest))
              && (out.1.retryAfter.value - 1) * Second < Minute + (now - r.firstRequest)
              && Minute + (now - r.firstRequest) <= out.1.retryAfter.value * Second
    // a silent rejection comes only from a block in force
    ensures out.1 == TooMany(None) <==> StillBlocked(r, now)
  {
    if StillBlocked(r, now) then (r, TooMany(None))
    else if Stale(r, now) then (Fresh(now), Allow)
    else
      var count := r.requestCount + 1;
      var elapsed := now - r.firstRequest;
      if OverBudget(count, elapsed) then
        var d := Minute + elapsed;
        (Record(Some(now + d), r.firstRequest, count), TooMany(Some(CeilSeconds(d))))
      else
        (Record(None, r.firstRequest, count), Allow)
  }

  /** For a window age that is not negative, the block decision of Visit is the source's rate test. */
  lemma VisitMatchesRateTest(r: Record, now: int)
    requires r.firstRequest <= now
    requires !StillBlocked(r, now) && !Stale(r, now)
    ensures Visit(r, now).1.TooMany? <==> RateExceeded(r.requestCount + 1, now - r.firstRequest)
  {
    RateTestExact(r.requestCount + 1, now - r.firstRequest);
  }

  /**
   * checkLimit on the whole table: `remote` is the client address after
   * SplitHostPort, ParseIP and To16, None when any of them fails.
   */
  function Admit(table: Table, remote: Option<Addr>, now: int): (out: (Table, Verdict))
    // an address that cannot be parsed is turned away and nothing is recorded
    ensures remote.None? ==> out == (table, TooMany(None))
    // afterwards the requesting address has its one record; no key is ever removed
    ensures remote.Some? ==> out.0.Keys == table.Keys + {remote.value}
    // every other client's record is left as it was
    ensures forall k :: k in table && remote != Some(k) ==> k in out.0 && out.0[k] == table[k]
    // the first request of an unknown client is let through and opens a fresh window
    ensures remote.Some? && remote.value !in table ==>
              out.1 == Allow && out.0[remote.value] == Fresh(now)
    // a known client is judged on its own record alone
    ensures remote.Some? && remote.value in table ==>
              out.0[remote.value] == Visit(table[remote.value], now).0 &&
              out.1 == Visit(table[remote.value], now).1
  {
    match remote
    case None => (table, TooMany(None))
    case Some(a) =>
      if a !in table then (table[a := Fresh(now)], Allow)
      else
        var (r, v) := Visit(table[a], now);
        (table[a := r], v)
  }

  function Min(x: int, y: int): int
  {
    if x <= y then x else y
  }

  /**
   * The invariant every record keeps when its client's requests are applied
   * in the order of their clock readings, the latest of which is `clock`. Without a block the record passed the threshold the
   * last time it was counted, at a window age of at most a week. With a block,
   * `until - firstRequest - Minute` is twice the window age at which the block
   * was set (at most two weeks), and the count was at most one over the
   * threshold at that age.
   */
  ghost predicate Sound(r: Record, clock: int)
  {
    && 1 <= r.requestCount
    && r.firstRequest <= clock
    && match r.blockedUntil
       case None => !OverBudget(r.requestCount, Min(clock - r.firstRequest, Week))
       case Some(until) =>
         var twice := until - r.firstRequest - Minute;
         && 0 <= twice <= 2 * Week
         && 2 * 10 * Second * r.requestCount <= 2 * Grace + twice + 2 * 10 * Second
  }

  ghost predicate SoundTable(t: Table, clock: int)
  {
    forall k :: k in t ==> Sound(t[k], clock)
  }

  /** A sound record never counts beyond MaxCount, far below the range of Go's int. */
  lemma SoundBoundsCount(r: Record, clock: int)
    requires Sound(r, clock)
    ensures 1 <= r.requestCount <= MaxCount
  {
    match r.blockedUntil
    case None =>
      assert 10 * Second * r.requestCount <= Grace + Week;
    case Some(until) =>
      assert 20 * Second * r.requestCount <= 2 * Grace + 2 * Week + 20 * Second;
  }

  lemma SoundLater(r: Record, clock: int, later: int)
    requires Sound(r, clock) && clock <= later
    ensures Sound(r, later)
  {
  }

  /**
   * The first request counted after a block has run out is always let
   * through: the window has aged by more than twice its age when the block was
   * set, which lowers the threshold by more than the one request added. So the
   * fall-through after clearing a block never re-blocks a client whose requests
   * are applied in clock order, although the source allows for it.
   */
  lemma ExpiredBlockAllows(r: Record, clock: int, now: int)
    requires Sound(r, clock) && clock <= now
    requires r.blockedUntil.Some? && !StillBlocked(r, now) && !Stale(r, now)
    ensures Visit(r, now) == (Record(None, r.firstRequest, r.requestCount + 1), Allow)
  {
    var twice := r.blockedUntil.value - r.firstRequest - Minute;
    var elapsed := now - r.firstRequest;
    assert elapsed > twice + Minute;
    assert 20 * Second * (r.requestCount + 1) <= 2 * Grace + twice + 4 * 10 * Second;
    assert !OverBudget(r.requestCount + 1, elapsed);
  }

  /** Every outcome of a request keeps a record sound. */
  lemma VisitKeepsSound(r: Record, clock: int, now: int)
    requires Sound(r, clock) && clock <= now
    ensures Sound(Visit(r, now).0, now)
  {
    SoundLater(r, clock, now);
    var elapsed := now - r.firstRequest;
    if StillBlocked(r, now) || Stale(r, now) {
    } else if r.blockedUntil.Some? {
      ExpiredBlockAllows(r, clock, now);
    } else if OverBudget(r.requestCount + 1, elapsed) {
      // the record passed the threshold at an age no greater than now's
      assert 10 * Second * r.requestCount <= Grace + elapsed;
    }
  }

  lemma AdmitKeepsSound(t: Table, clock: int, remote: Option<Addr>, now: int)
    requires SoundTable(t, clock) && clock <= now
    ensures SoundTable(Admit(t, remote, now).0, now)
  {
    var t' := Admit(t, remote, now).0;
    forall k | k in t' ensures Sound(t'[k], now) {
      if remote == Some(k) && k in t {
        VisitKeepsSound(t[k], clock, now);
      } else if k in t {
        SoundLater(t[k], clock, now);
      }
    }
  }

  /** One request as the limiter sees it. */
  datatype Arrival = Arrival(remote: Option<Addr>, now: int)

  /** The table after a sequence of requests, handled one at a time. */
  function Replay(table: Table, arrivals: seq<Arrival>): Table
    decreases |arrivals|
  {
    if arrivals == [] then table
    else Replay(Admit(table, arrivals[0].remote, arrivals[0].now).0, arrivals[1..])
  }

  /** The parsed addresses among the arrivals. */
  function Seen(arrivals: seq<Arrival>): set<Addr>
    decreases |arrivals|
  {
    if arrivals == [] then {}
    else (if arrivals[0].remote.Some? then {arrivals[0].remote.value} else {}) + Seen(arrivals[1..])
  }

  /** The arrivals from one address, in order. */
  function From(arrivals: seq<Arrival>, a: Addr): seq<Arrival>
    decreases |arrivals|
  {
    if arrivals == [] then []
    else (if arrivals[0].remote == Some(a) then [arrivals[0]] else []) + From(arrivals[1..], a)
  }

  function Lookup(t: Table, a: Addr): Option<Record>
  {
    if a in t then Some(t[a]) else None
  }

  /** Records are never removed: after any run, exactly the addresses seen have been added. */
  lemma {:induction false} ReplayKeys(table: Table, arrivals: seq<Arrival>)
    ensures Replay(table, arrivals).Keys == table.Keys + Seen(arrivals)
    decreases |arrivals|
  {
    if arrivals != [] {
      var x := arrivals[0];
      ReplayKeys(Admit(table, x.remote, x.now).0, arrivals[1..]);
    }
  }

  /** What a run does to one address depends on that address's record alone. */
  lemma {:induction false} ReplayLocal(t1: Table, t2: Table, arrivals: seq<Arrival>, a: Addr)
    requires Lookup(t1, a) == Lookup(t2, a)
    ensures Lookup(Replay(t1, arrivals), a) == Lookup(Replay(t2, arrivals), a)
    decreases |arrivals|
  {
    if arrivals != [] {
      var x := arrivals[0];
      ReplayLocal(Admit(t1, x.remote, x.now).0, Admit(t2, x.remote, x.now).0, arrivals[1..], a);
    }
  }

  /**
   * Clients do not interfere: a client's record after any run is the record
   * it would have had if only its own requests had arrived.
   */
  lemma {:induction false} ReplayIsolation(table: Table, arrivals: seq<Arrival>, a: Addr)
    ensures Lookup(Replay(table, arrivals), a) == Lookup(Replay(table, From(arrivals, a)), a)
    decreases |arrivals|
  {
    if arrivals != [] {
      var x := arrivals[0];
      var next := Admit(table, x.remote, x.now).0;
      ReplayIsolation(next, arrivals[1..], a);
      if x.remote == Some(a) {
        assert From(arrivals, a) == [x] + From(arrivals[1..], a);
        assert (From(arrivals, a))[1..] == From(arrivals[1..], a);
      } else {
        assert From(arrivals, a) == From(arrivals[1..], a);
        assert Lookup(next, a) == Lookup(table, a);
        ReplayLocal(next, table, From(arrivals[1..], a), a);
      }
    }
  }

  /** Request times that never go backwards, starting no earlier than `clock`. */
  predicate Chronological(clock: int, arrivals: seq<Arrival>)
    decreases |arrivals|
  {
    arrivals == [] || (clock <= arrivals[0].now && Chronological(arrivals[0].now, arrivals[1..]))
  }

  function LastTime(clock: int, arrivals: seq<Arrival>): int
  {
    if arrivals == [] then clock else arrivals[|arrivals| - 1].now
  }

  /**
   * When requests are applied in clock order, every record stays sound through
   * any run, so no request count ever exceeds MaxCount.
   */
  lemma {:induction false} ReplayKeepsSound(table: Table, clock: int, arrivals: seq<Arrival>)
    requires SoundTable(table, clock) && Chronological(clock, arrivals)
    ensures SoundTable(Replay(table, arrivals), LastTime(clock, arrivals))
    ensures forall k :: k in Replay(table, arrivals) ==> 1 <= Replay(table, arrivals)[k].requestCount <= MaxCount
    decreases |arrivals|
  {
    var t' := Replay(table, arrivals);
    var last := LastTime(clock, arrivals);
    if arrivals != [] {
      var x := arrivals[0];
      AdmitKeepsSound(table, clock, x.remote, x.now);
      ReplayKeepsSound(Admit(table, x.remote, x.now).0, x.now, arrivals[1..]);
      assert LastTime(x.now, arrivals[1..]) == last;
    }
    forall k | k in t' ensures 1 <= t'[k].requestCount <= MaxCount {
      SoundBoundsCount(t'[k], last);
    }
  }
}
