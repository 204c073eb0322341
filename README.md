# reserv admission handler in Dafny

This project models the request-admission core of `reserv`, a small Go HTTP(S)
front end: the handler that every request passes before it reaches routing.

- **Rate limiter** (`checkLimit`). The handler keeps a table from a client's
  16-byte normalised address to a record: window start (`firstRequest`), request
  count (`requestCount`) and an optional block end (`blockedUntil`). An unknown
  client gets a fresh record and is let through. A known client is rejected while a
  block is in force, up to and including its last instant. Otherwise an expired
  block is cleared. A window older than a week restarts. Any other request is
  counted and blocked when `count / (1000 + elapsed seconds) > 0.1`. A block lasts
  one minute plus the window's age, and Retry-After gives that length in whole
  seconds, rounded up.
- **Admission pipeline** (`ServeHTTP`). The checks run in this order, and the
  first that triggers gives the response:
  1. the rate limit (429);
  2. a Host header other than the canonical host (400);
  3. a plaintext request while TLS is on (301 to `https` and the requested host);
  4. a host of exactly two dot-separated labels (301 to `www.` plus the host).

  The host and www checks run only when a canonical host is configured. The HTTPS
  check runs only when TLS is on. `newHandler` turns TLS on when a domain is set
  and there is at least one HTTPS listener.

Files:

- `wrappers.dfy`: `Option`.
- `rate_limit.dfy` (module `RateLimit`): the limiter as functions on values.
  - `Visit` handles a known client and `Admit` handles the whole table.
  - `RateExceeded` is the exact real-number reading of the float test. The lemmas
    prove the integer-nanosecond test equal to it.
  - `Sound` is the invariant every record keeps. With it, the lemmas bound the
    request count and show that no client interferes with another.
- `admission.dfy` (module `Admission`): requests, URLs and responses.
  - `Split` models Go's `strings.Split`. `Join` is its inverse, used only by the round-trip lemmas; the source never calls `strings.Join`, and unlike Go's, this `Join` requires a non-empty list.
  - `WrongHost`, `CheckHTTPS` and `CheckWWW` are the three checks.
  - `Serve` is the whole pipeline as a function.
- `handler.dfy` (module `Handlers`): class `Handler`, which is `defaultHandler`.
  - It holds `Host`, `TLS` and the `records` map.
  - A ghost `Clock` holds the latest clock reading applied to the table; requests are applied in the order of their readings.
  - `CheckLimit` updates the table step by step, as the Go code does, and is
    proved equal to `Admit`. `ServeHTTP` is proved equal to `Serve`.
- `scenarios.dfy` (module `Scenarios`): concrete behaviour at the boundaries.

Time is counted in integer nanoseconds, as Go's `time.Duration` counts it. With
`elapsed` the window's age in nanoseconds, the float test
`float64(count)/(1000+elapsed.Seconds()) > 0.1` becomes
`10 * Second * count > 1000 * Second + elapsed`. Lemma `RateTestExact` proves this
equal to the real-number test whenever the age is not negative.

Each address has at most one record because the table is a `map`. Records are
never removed. `Admit` and `ReplayKeys` state exactly which keys are added.

Behaviour of the code that is easy to misread:

- A request at exactly `blockedUntil` is still rejected. The code tests
  `now.After(*blockedUntil)`, which is strict. See `Scenarios.BlockHoldsThroughItsEnd`.
- A window older than a week does not restart while a block is still in force. The
  block test comes first, so such a request is rejected. See
  `Scenarios.StaleWindowStillBlocked`.
- Take canonical host `example.com`. A request to `www.example.com` is not routed:
  `checkHost` answers 400. So the target of every www redirect is refused by the
  host check. See `Scenarios.WwwTargetNeverRouted`.
- The code clears an expired block and still counts the same request. In
  principle that request could re-block the client. `RateLimit.ExpiredBlockAllows`
  shows that it never does for a record that satisfies `Sound`. Every record
  satisfies `Sound` as long as each client's requests are applied in the order of
  their clock readings; the code does not guarantee that order (see "## Left out").
- The www redirect keeps the URL's own scheme, because `checkWWW` sets only
  `URL.Host`.

## Model

| member | source | states |
|---|---|---|
| `RateLimit.RateTestExact` | handler.go:112 | for a non-negative window age, the float test `count/(1000+elapsed seconds) > 0.1`, read over the reals, holds exactly when `count * 10^10 > 10^12 + elapsed ns` |
| `RateLimit.CeilSeconds` | handler.go:113-115 | Retry-After is the block length rounded up to whole seconds: the least `s` with `d <= s * Second` |
| `RateLimit.Visit` | handler.go:99-119 | a block in force through `now == blockedUntil` rejects with no hint and changes nothing; otherwise a window older than a week restarts with count 1 and is allowed; otherwise the count goes up by exactly one in the same window and the request is rejected iff the threshold is crossed; an allowed request leaves no block; a new block ends at `now + 1 min + age` and Retry-After is that length rounded up; a rejection without a hint happens iff a block is in force |
| `RateLimit.VisitMatchesRateTest` | handler.go:111-112 | for a non-negative window age, a counted request is rejected iff the source's rate test `count/(1000+elapsed) > 0.1` holds |
| `RateLimit.Admit` | handler.go:68-119 | an unparsable address is rejected with 429 and leaves the table unchanged; otherwise the key set grows by exactly the requesting address; every other record is unchanged; an unknown client is allowed with record (no block, `now`, 1); a known client is judged by its own record |
| `RateLimit.ExpiredBlockAllows` | handler.go:99-117 | for a sound record (every record is sound when its client's requests are applied in clock order) whose block has run out and whose window is not stale, the request is counted and allowed, never re-blocked |
| `RateLimit.SoundBoundsCount` | handler.go:106-117 | a sound record holds between 1 and 60581 requests, far inside Go's `int` |
| `RateLimit.VisitKeepsSound` | handler.go:99-119 | every outcome of a known client's request keeps its record sound at the new clock reading |
| `RateLimit.AdmitKeepsSound` | handler.go:77-119 | a request keeps every record in the table sound |
| `RateLimit.ReplayKeys` | handler.go:80-89 | after any sequence of requests the table's keys are the old keys plus exactly the parsed addresses seen; none is removed |
| `RateLimit.ReplayLocal` | handler.go:77-98 | what a sequence of requests does to an address's record depends only on that address's record before it |
| `RateLimit.ReplayIsolation` | handler.go:77-98 | a client's record after any sequence of requests is the one it would have had if only its own requests had arrived |
| `RateLimit.ReplayKeepsSound` | handler.go:106-117 | on a non-decreasing clock every record stays sound through any sequence of requests, so no count exceeds 60581 |
| `Admission.Split` | handler.go:141 | `strings.Split(host, ".")` returns one part more than the host has dots, and no part holds a dot |
| `Admission.JoinSplit` | handler.go:141 | joining the parts of `Split` with the separator gives back the string |
| `Admission.SplitJoin` | handler.go:141 | splitting the join of separator-free parts gives back the parts |
| `Admission.CheckHTTPS` | handler.go:130-138 | redirects iff the connection is plaintext; the target has scheme `https`, the request's Host header as host and the same path |
| `Admission.CheckWWW` | handler.go:140-148 | redirects iff the host splits into exactly two labels, that is iff it holds exactly one dot; the target host is `www.` plus the host, with scheme and path kept |
| `Admission.OnlyCanonicalHostPasses` | handler.go:122-128 | checkHost (`WrongHost`) in the pipeline: with a canonical host set, any answer other than 429 or 400 implies the Host header is exactly the canonical host; once the limiter allows, the answer is 400 iff the Host header differs |
| `Admission.Serve` | handler.go:46-60 | the rate limiter is consulted first, on every request, and alone changes the table; 429 iff it rejects, carrying its Retry-After; then 400 iff a canonical host is set and the Host header differs; then the HTTPS redirect iff TLS is on and the request is plaintext; then the www redirect iff a canonical host is set and the host has one dot; otherwise the unchanged request goes to routing; the status written is 429, 400 or 301 in exactly those cases and none when routed; with no canonical host and no TLS only the rate limit can stop a request |
| `Handlers.Handler.constructor` | handler.go:37-43 | `Host` is the domain; `TLS` holds iff the domain is non-empty and there is an HTTPS listener; the table starts empty |
| `Handlers.Handler.CheckLimit` | handler.go:62-120 | the in-place update of the records map gives the table and verdict of `Admit`, and keeps every record sound |
| `Handlers.Handler.ServeHTTP` | handler.go:46-60 | the handler's new table and its response are those of `Serve` for its `Host` and `TLS` |
| `Scenarios.ThresholdIsStrict` | handler.go:112-116 | at window age 0 the 100th request is allowed; the 101st is blocked for one minute with Retry-After 60 |
| `Scenarios.BlockHoldsThroughItsEnd` | handler.go:99-104 | a request at exactly `blockedUntil` is rejected with the record unchanged; one a nanosecond later is not rejected silently |
| `Scenarios.StaleWindowStillBlocked` | handler.go:99-110 | a request to a week-old window is still rejected while a block is in force |
| `Scenarios.ExampleComUpgrade` | handler.go:130-136 | with host `example.com` and TLS on, a plaintext request to `example.com` is redirected to `https://example.com` with its path |
| `Scenarios.BareDomainAddsWww` | handler.go:140-146 | with a two-label canonical host and TLS on, a secure request to that host is redirected to `www.` plus the host |
| `Scenarios.WwwTargetNeverRouted` | handler.go:122-148 | a request sent to the www form of the host is always refused by the host check or the rate limit, never routed |

## Left out

- `reserv.go` `New`: opening TCP listeners on ports 80 and 443 is socket I/O. So is wrapping them with the external `plistener` package. The ban length it draws at random, `1 + rand.Intn(28)` days, is not modelled either.
- `reserv.go` `Run`: one goroutine per listener, the shared error channel and `Server.Close`. This is concurrency, which the model does not cover.
- The store's `sync.RWMutex`, the per-record `sync.Mutex` and the double-checked creation. The table is handled one request at a time. Only the result of the locking is kept: one record per address, and each request's changes applied as one step.
- `net.SplitHostPort`, `net.ParseIP` and `To16` are library calls. They are an `Option<Addr>` input, `None` when any of them fails.
- `time.Now()` is a parameter `now`: on the new-record path it stands for the reading at handler.go:86, on the other path for the reading at handler.go:96.
- Request order: the model applies each client's requests one at a time, in the order of their clock readings (`Clock <= now`). The code does not guarantee that order. It reads `now` at handler.go:96 before taking the record lock at handler.go:97, so two requests from one client can update the record in the reverse order of their readings, and after another request's reset (handler.go:107) a request can find a `firstRequest` later than its own `now`. `Sound`, `ExpiredBlockAllows`, `SoundBoundsCount` and `ReplayKeepsSound` are proved only for requests applied in clock order. The integer test `OverBudget` also differs from the float test at handler.go:112 for a window age below -1000 seconds, which only out-of-order application can produce; `RateTestExact` covers non-negative ages.
- Floating point: the rate test and `math.Ceil(d.Seconds())` are computed exactly. Rounding of `float64` is not modelled.
- `time.Time` and `time.Duration` are unbounded integers. The saturating `int64` range of `Duration` (about ±292 years, where `Time.Sub` saturates) is not modelled; no reachable window age comes near it. `SoundBoundsCount` shows that `requestCount` stays far inside `int`.
- `*ipRecord` is a pointer that the code mutates in place, and every in-flight request from the same address holds it (handler.go:80, 84), which is why `ipRecord.mu` exists. The model keeps the record as a value in the map and writes it back at the end of each request; it does not capture that sharing, only its outcome when the requests from one address are serialised by that mutex.
- `http.ServeMux`, `http.FileServer`, `http.StripPrefix`, `http.ServeFile` and the external API handler route the request after admission. The model ends at `Route(request)`.
- `http.Redirect`, `URL.String()` and the `Retry-After` header text (`strconv.Itoa`) are left out. A redirect is the `Url` value (scheme, host, path), and Retry-After is an integer.
- `test/main.go` is a demo `main` with a stub API handler and holds no logic.
