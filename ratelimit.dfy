/** The per-client token bucket in front of the send and read endpoints
    (backend/ratelimit/limiter.go). Token counts and rates are `real`
    (IEEE rounding is not modelled); the clock reading is the parameter
    `now`, in nanoseconds, and each method is one atomic step. */
module RateLimit {
  import opened Base

  /** A client not refilled for longer than this is dropped by the sweep. */
  const StaleAfter: int := 10 * Minute

  const StatusTooManyRequests: int := 429
  /** `http.Error` writes the message followed by a newline. */
  const TooManyRequestsBody := "Too Many Requests\n"

  /** One client's bucket. */
  datatype Client = Client(tokens: real, lastRefill: Time)

  /** `time.Duration.Seconds()`: nanoseconds as a real number of seconds. */
  function Seconds(d: int): real {
    d as real / Second as real
  }

  /** Durations add as seconds do; one second is 1.0 and the staleness
      limit is 600 seconds. */
  lemma SecondsAdditive(a: int, b: int)
    ensures Seconds(a + b) == Seconds(a) + Seconds(b)
    ensures Seconds(Second) == 1.0 && Seconds(StaleAfter) == 600.0
    ensures a <= b ==> Seconds(a) <= Seconds(b)
  {
  }

  function MinReal(a: real, b: real): real {
    if a <= b then a else b
  }

  /** The bucket `Allow` starts from: the stored one, or a full bucket
      stamped `now` for a client never seen. */
  function Start(clients: map<string, Client>, ip: string, now: Time, burst: real): (c: Client)
    ensures ip in clients ==> c == clients[ip]
    ensures ip !in clients ==> c.tokens == burst && c.lastRefill == now
  {
    if ip in clients then clients[ip] else Client(burst, now)
  }

  /** Refill: the elapsed seconds times the rate are added, the result is
      capped at `burst`, and the bucket is stamped `now`. */
  function Refill(c: Client, now: Time, rate: real, burst: real): (r: Client)
    ensures r.lastRefill == now
    ensures r.tokens <= burst
    ensures r.tokens == burst <==> c.tokens + Seconds(now - c.lastRefill) * rate >= burst
    ensures r.tokens < burst ==> r.tokens == c.tokens + Seconds(now - c.lastRefill) * rate
  {
    Client(MinReal(c.tokens + Seconds(now - c.lastRefill) * rate, burst), now)
  }

  /** The decision `Allow` returns and the client map it leaves. */
  datatype Admission = Admission(allowed: bool, clients: map<string, Client>)

  /** `Allow` as a function of the client map: true iff the refilled bucket
      holds at least one token, in which case exactly one is consumed; only
      the named client's bucket changes. */
  function AllowOutcome(clients: map<string, Client>, ip: string, now: Time, rate: real, burst: real): (a: Admission)
    ensures var refilled := Refill(Start(clients, ip, now, burst), now, rate, burst);
            && (a.allowed <==> refilled.tokens >= 1.0)
            && ip in a.clients
            && a.clients[ip].lastRefill == now
            && a.clients[ip].tokens == (if a.allowed then refilled.tokens - 1.0 else refilled.tokens)
    ensures forall other :: other != ip ==> (other in a.clients <==> other in clients)
    ensures forall other :: other != ip && other in clients ==> a.clients[other] == clients[other]
  {
    var refilled := Refill(Start(clients, ip, now, burst), now, rate, burst);
    if refilled.tokens >= 1.0 then Admission(true, clients[ip := refilled.(tokens := refilled.tokens - 1.0)])
    else Admission(false, clients[ip := refilled])
  }

  /** The clients one sweep keeps: those refilled at most ten minutes ago. */
  function Fresh(clients: map<string, Client>, now: Time): (r: map<string, Client>)
    ensures forall ip :: ip in r <==> ip in clients && now - clients[ip].lastRefill <= StaleAfter
    ensures forall ip :: ip in r ==> r[ip] == clients[ip]
  {
    map ip | ip in clients && now - clients[ip].lastRefill <= StaleAfter :: clients[ip]
  }

  /** `strings.LastIndex(s, string(c))`. */
  function LastIndex(s: string, c: char): (i: int)
    ensures -1 <= i < |s|
    ensures i == -1 <==> c !in s
    ensures i >= 0 ==> s[i] == c && forall j :: i < j < |s| ==> s[j] != c
  {
    if |s| == 0 then -1
    else if s[|s| - 1] == c then |s| - 1
    else LastIndex(s[..|s| - 1], c)
  }

  /** The bucket key `Middleware` uses: a non-empty X-Forwarded-For header
      as it is, otherwise the remote address cut at its last ':'. */
  function ClientId(remoteAddr: string, forwardedFor: string): (id: string)
    ensures forwardedFor != "" ==> id == forwardedFor
    ensures forwardedFor == "" && ':' !in remoteAddr ==> id == remoteAddr
    ensures forwardedFor == "" && ':' in remoteAddr ==>
              IsPrefix(id, remoteAddr) && |id| < |remoteAddr| && remoteAddr[|id|] == ':' &&
              ':' !in remoteAddr[|id| + 1..]
  {
    if forwardedFor != "" then forwardedFor
    else
      var idx := LastIndex(remoteAddr, ':');
      if idx != -1 then remoteAddr[..idx] else remoteAddr
  }

  /** What the middleware does with a request: pass it to the wrapped
      handler, or answer it itself. */
  datatype Gate = Forward | Reject(status: int, body: string)

  class Limiter {
    var clients: map<string, Client>
    /** Tokens per second. */
    const rate: real
    /** Bucket capacity. */
    const burst: real

    /** `NewLimiter`: an empty client map (the sweep goroutine is not
        modelled). */
    constructor (rate: real, burst: real)
      ensures clients == map[] && this.rate == rate && this.burst == burst
    {
      clients := map[];
      this.rate := rate;
      this.burst := burst;
    }

    /** Creates the client's bucket if needed, refills, caps, and consumes
        one token when there is one. */
    method Allow(ip: string, now: Time) returns (allowed: bool)
      modifies this
      ensures Admission(allowed, clients) == AllowOutcome(old(clients), ip, now, rate, burst)
    {
      var client: Client;
      if ip !in clients {
        client := Client(burst, now);
        clients := clients[ip := client];
      } else {
        client := clients[ip];
      }
      assert client == Start(old(clients), ip, now, burst);
      var elapsed := Seconds(now - client.lastRefill);
      var tokens := client.tokens + elapsed * rate;
      if tokens > burst {
        tokens := burst;
      }
      client := Client(tokens, now);
      assert client == Refill(Start(old(clients), ip, now, burst), now, rate, burst);
      if tokens >= 1.0 {
        client := client.(tokens := tokens - 1.0);
        allowed := true;
      } else {
        allowed := false;
      }
      clients := clients[ip := client];
    }

    /** One iteration of `cleanupLoop`: ranges over the map and deletes
        every client not refilled for more than ten minutes. */
    method CleanupPass(now: Time)
      modifies this
      ensures clients == Fresh(old(clients), now)
    {
      ghost var start := clients;
      var pending := clients.Keys;
      while pending != {}
        invariant pending <= start.Keys
        invariant clients.Keys <= start.Keys
        invariant forall ip :: ip in clients ==> clients[ip] == start[ip]
        invariant forall ip :: ip in start ==>
                    (ip in clients <==> ip in pending || now - start[ip].lastRefill <= StaleAfter)
        decreases pending
      {
        var ip :| ip in pending;
        if now - clients[ip].lastRefill > StaleAfter {
          clients := clients - {ip};
        }
        pending := pending - {ip};
      }
      assert clients == Fresh(start, now);
    }

    /** Keys the request by `ClientId`, charges that bucket, and answers 429
        itself when the bucket is empty; otherwise the wrapped handler runs. */
    method Middleware(remoteAddr: string, forwardedFor: string, now: Time) returns (gate: Gate)
      modifies this
      ensures var a := AllowOutcome(old(clients), ClientId(remoteAddr, forwardedFor), now, rate, burst);
              clients == a.clients &&
              gate == (if a.allowed then Forward else Reject(StatusTooManyRequests, TooManyRequestsBody))
    {
      var ip := remoteAddr;
      var idx := LastIndex(ip, ':');
      if idx != -1 {
        ip := ip[..idx];
      }
      if forwardedFor != "" {
        ip := forwardedFor;
      }
      var allowed := Allow(ip, now);
      if !allowed {
        return Reject(StatusTooManyRequests, TooManyRequestsBody);
      }
      gate := Forward;
    }
  }

  /** Every bucket holds between 0 and `burst` tokens and was last refilled
      no later than `now`. */
  predicate InRange(clients: map<string, Client>, now: Time, burst: real) {
    forall ip :: ip in clients ==> 0.0 <= clients[ip].tokens <= burst && clients[ip].lastRefill <= now
  }

  lemma ProductNonNegative(x: real, y: real)
    requires x >= 0.0 && y >= 0.0
    ensures x * y >= 0.0
  {
  }

  /** With a non-negative rate and burst and a clock that does not run
      backwards, tokens stay within [0, burst]. */
  lemma AllowKeepsRange(clients: map<string, Client>, ip: string, before: Time, now: Time, rate: real, burst: real)
    requires rate >= 0.0 && burst >= 0.0 && before <= now
    requires InRange(clients, before, burst)
    ensures InRange(AllowOutcome(clients, ip, now, rate, burst).clients, now, burst)
  {
    var start := Start(clients, ip, now, burst);
    assert now - start.lastRefill >= 0;
    assert Seconds(now - start.lastRefill) >= 0.0;
    ProductNonNegative(Seconds(now - start.lastRefill), rate);
    var a := AllowOutcome(clients, ip, now, rate, burst);
    forall other | other in a.clients
      ensures 0.0 <= a.clients[other].tokens <= burst && a.clients[other].lastRefill <= now
    {
    }
  }

  /** The sweep never breaks the range invariant. */
  lemma SweepKeepsRange(clients: map<string, Client>, now: Time, burst: real)
    requires InRange(clients, now, burst)
    ensures InRange(Fresh(clients, now), now, burst)
  {
  }

  /** An unseen client starts from a full bucket: it is admitted iff
      `burst >= 1`, and then keeps `burst - 1` tokens. */
  lemma FirstRequestStartsFull(clients: map<string, Client>, ip: string, now: Time, rate: real, burst: real)
    requires ip !in clients
    ensures AllowOutcome(clients, ip, now, rate, burst).allowed <==> burst >= 1.0
    ensures AllowOutcome(clients, ip, now, rate, burst).allowed ==>
              AllowOutcome(clients, ip, now, rate, burst).clients[ip].tokens == burst - 1.0
  {
  }

  /** With `burst = 2` and no time passing, an unseen client is admitted
      twice and refused the third time. */
  lemma BurstOfTwo(clients: map<string, Client>, ip: string, now: Time, rate: real)
    requires ip !in clients
    ensures var a1 := AllowOutcome(clients, ip, now, rate, 2.0);
            var a2 := AllowOutcome(a1.clients, ip, now, rate, 2.0);
            var a3 := AllowOutcome(a2.clients, ip, now, rate, 2.0);
            a1.allowed && a2.allowed && !a3.allowed && a3.clients[ip].tokens == 0.0
  {
    var a1 := AllowOutcome(clients, ip, now, rate, 2.0);
    assert a1.clients[ip] == Client(1.0, now);
    var a2 := AllowOutcome(a1.clients, ip, now, rate, 2.0);
    assert a2.clients[ip] == Client(0.0, now);
  }

  /** A refused client is admitted again once enough time has passed for
      the rate to add the missing token. */
  lemma WaitingRefills(clients: map<string, Client>, ip: string, now: Time, rate: real, burst: real)
    requires ip in clients && clients[ip].tokens >= 0.0 && burst >= 1.0
    requires Seconds(now - clients[ip].lastRefill) * rate >= 1.0 - clients[ip].tokens
    ensures AllowOutcome(clients, ip, now, rate, burst).allowed
  {
  }

  /** Forgetting a stale client is invisible whenever ten minutes of refill
      fill any bucket (`600 * rate >= burst`, as for both limiters the
      server configures): the next request gets the same decision and the
      same bucket as if the client had been kept. */
  lemma SweepIsInvisible(clients: map<string, Client>, ip: string, now: Time, rate: real, burst: real)
    requires rate >= 0.0 && 600.0 * rate >= burst
    requires ip in clients && clients[ip].tokens >= 0.0 && now - clients[ip].lastRefill > StaleAfter
    ensures ip !in Fresh(clients, now)
    ensures AllowOutcome(Fresh(clients, now), ip, now, rate, burst).allowed == AllowOutcome(clients, ip, now, rate, burst).allowed
    ensures AllowOutcome(Fresh(clients, now), ip, now, rate, burst).clients[ip] == AllowOutcome(clients, ip, now, rate, burst).clients[ip]
  {
    var e := Seconds(now - clients[ip].lastRefill);
    assert e > 600.0;
    assert (e - 600.0) * rate >= 0.0 by {
      ProductNonNegative(e - 600.0, rate);
    }
    assert e * rate >= burst;
  }

  /** A client that made a request within the last ten minutes survives
      the sweep. */
  lemma RecentClientSurvivesSweep(clients: map<string, Client>, ip: string, t: Time, now: Time, rate: real, burst: real)
    requires t <= now <= t + StaleAfter
    ensures ip in Fresh(AllowOutcome(clients, ip, t, rate, burst).clients, now)
  {
  }

  /** An IPv4 remote address loses only its port. */
  lemma PortIsStripped()
    ensures ClientId("203.0.113.9:51234", "") == "203.0.113.9"
  {
    assert LastIndex("203.0.113.9:51234", ':') == 11;
  }

  /** A bracketed IPv6 remote address loses only its port: the cut is at
      the last ':'. */
  lemma BracketedPortIsStripped()
    ensures ClientId("[2001:db8::1]:443", "") == "[2001:db8::1]"
  {
  }

  /** A non-empty X-Forwarded-For header replaces the remote address. */
  lemma ForwardedForWins()
    ensures ClientId("203.0.113.9:51234", "198.51.100.7") == "198.51.100.7"
  {
  }
}
