/**
 * middleware.ts: deriving the client key from `x-forwarded-for`, the gate that
 * sends only `/api/` paths through the limiter, the 429 and pass-through
 * responses, and the module-level `rateLimit` map as the state of a class.
 */
module Middleware {
  import opened Wrappers
  import opened JsText
  import opened RateLimit

  const KeyPrefix: string := "rate-limit:"
  const AnonymousIp: string := "anonymous"
  const ApiPrefix: string := "/api/"
  const RateLimitError: string := "Rate limit exceeded. Please try again later."

  /** The parts of a Next.js request the middleware reads. */
  datatype Request = Request(pathname: string, forwardedFor: Option<string>)

  datatype Header = Header(name: string, value: string)

  /** `NextResponse.next()` with headers added, or a response that ends the request. */
  datatype Response =
    | PassThrough(headers: seq<Header>)
    | Reject(status: int, headers: seq<Header>, body: string)

  /** The address part of the key: the trimmed first field of the header, or the fallback when it is absent. */
  function ClientIp(forwardedFor: Option<string>): (ip: string)
    ensures forwardedFor.None? ==> ip == AnonymousIp
    ensures forwardedFor.Some? ==> IsTrimmed(ip) && ',' !in ip
    ensures forwardedFor.Some? ==> exists i :: InfixAt(ip, forwardedFor.value, i)
    ensures forwardedFor.Some? ==>
      var f := FirstField(forwardedFor.value);
      exists i :: InfixAt(ip, f, i) && WhitespaceBetween(f, 0, i) && WhitespaceBetween(f, i + |ip|, |f|)
  {
    match forwardedFor
    case None => AnonymousIp
    case Some(h) =>
      TrimOfFirstFieldIsInfix(h);
      Trim(FirstField(h))
  }

  lemma TrimOfFirstFieldIsInfix(h: string)
    ensures exists i :: InfixAt(Trim(FirstField(h)), h, i)
  {
    var f := FirstField(h);
    var ip := Trim(f);
    var j :| InfixAt(ip, f, j) && WhitespaceBetween(f, 0, j) && WhitespaceBetween(f, j + |ip|, |f|);
    InfixTrans(ip, f, h, j, 0);
    assert InfixAt(ip, h, j);
  }

  /** `getRateLimitKey`. */
  function RateLimitKey(forwardedFor: Option<string>): (key: string)
    ensures StartsWith(key, KeyPrefix) && key[|KeyPrefix|..] == ClientIp(forwardedFor)
  {
    KeyPrefix + ClientIp(forwardedFor)
  }

  /** An empty header gives an empty address, not the fallback. */
  lemma EmptyHeaderIsNotAnonymous()
    ensures RateLimitKey(Some("")) == "rate-limit:"
    ensures RateLimitKey(Some("")) != RateLimitKey(None)
  {
    assert FirstField("") == "";
    assert Trim("") == "";
  }

  /** Clients without the header share one bucket with clients claiming the address `anonymous`. */
  lemma AnonymousBucketIsShared()
    ensures RateLimitKey(None) == RateLimitKey(Some(AnonymousIp)) == KeyPrefix + AnonymousIp
  {
    AnonymousIsTrimmedField();
    assert ClientIp(None) == AnonymousIp;
    assert ClientIp(Some(AnonymousIp)) == AnonymousIp;
  }

  lemma AnonymousIsTrimmedField()
    ensures Trim(FirstField(AnonymousIp)) == AnonymousIp
  {
    var h := AnonymousIp;
    assert IsTrimmed(h);
    assert ',' !in h;
    FirstFieldWithoutComma(h);
    TrimOfTrimmed(h);
  }

  lemma {:induction false} FirstFieldWithoutComma(s: string)
    requires ',' !in s
    ensures FirstField(s) == s
  {
    if s != [] {
      FirstFieldWithoutComma(s[1..]);
    }
  }

  lemma TrimOfTrimmed(s: string)
    requires IsTrimmed(s)
    ensures Trim(s) == s
  {
    assert TrimStart(s) == s;
    assert TrimEnd(s) == s;
  }

  lemma {:induction false} FirstFieldIgnoresLaterHops(a: string, b: string)
    ensures FirstField(a + [','] + b) == FirstField(a)
  {
    if a != [] {
      assert (a + [','] + b)[1..] == a[1..] + [','] + b;
      FirstFieldIgnoresLaterHops(a[1..], b);
    }
  }

  /** Addresses appended by later proxies, after a comma, never change the key. */
  lemma KeyIgnoresLaterHops(a: string, b: string)
    ensures RateLimitKey(Some(a + "," + b)) == RateLimitKey(Some(a))
  {
    FirstFieldIgnoresLaterHops(a, b);
  }

  /** Only these paths consult the limiter. */
  predicate IsApiPath(pathname: string): (api: bool)
    ensures api <==> exists rest :: pathname == ApiPrefix + rest
  {
    if StartsWith(pathname, ApiPrefix) then
      assert pathname == ApiPrefix + pathname[|ApiPrefix|..];
      true
    else false
  }

  /** The response the middleware builds from a verdict of the limiter. */
  function GateResponse(v: Verdict): (r: Response)
    ensures r.Reject? <==> !v.allowed
    ensures r.Reject? ==> r.status == 429 && Header("Retry-After", "60") in r.headers
    ensures Header("X-RateLimit-Limit", "60") in r.headers
    ensures Header("X-RateLimit-Remaining", NumberString(v.remaining)) in r.headers
  {
    var limit := NumberString(MaxRequests);
    var remaining := NumberString(v.remaining);
    assert limit == "60" by { ParseDecimalOfDecimal(60); assert Decimal(60) == Decimal(6) + ['0']; }
    if !v.allowed then
      Reject(429,
             [Header("Content-Type", "application/json"),
              Header("Retry-After", "60"),
              Header("X-RateLimit-Limit", limit),
              Header("X-RateLimit-Remaining", remaining)],
             ErrorJson(RateLimitError))
    else
      PassThrough([Header("X-RateLimit-Limit", limit), Header("X-RateLimit-Remaining", remaining)])
  }

  /**
   * `middleware` with the `rateLimit` map passed in and returned: a path
   * outside `/api/` passes through untouched and leaves the map alone; an API
   * path is counted against its client's key, and is rejected with 429 exactly
   * when that key's open window has used all 60 requests.
   */
  function Handle(table: map<string, Record>, req: Request, now: int): (r: (map<string, Record>, Response))
    ensures !IsApiPath(req.pathname) ==> r.0 == table && r.1 == PassThrough([])
    ensures IsApiPath(req.pathname) ==> r.0.Keys == table.Keys + {RateLimitKey(req.forwardedFor)}
    ensures forall k :: k in table && k != RateLimitKey(req.forwardedFor) ==> k in r.0 && r.0[k] == table[k]
    ensures r.1.Reject? <==>
      var rec := Lookup(table, RateLimitKey(req.forwardedFor));
      IsApiPath(req.pathname) && Live(rec, now) && rec.value.count >= MaxRequests
    ensures IsApiPath(req.pathname) ==>
      var s := Step(table, RateLimitKey(req.forwardedFor), now);
      r.0 == s.0 && r.1 == GateResponse(s.1)
  {
    if IsApiPath(req.pathname) then
      var s := Step(table, RateLimitKey(req.forwardedFor), now);
      (s.0, GateResponse(s.1))
    else
      (table, PassThrough([]))
  }

  /** A rejection always carries status 429, `Retry-After: 60` and `X-RateLimit-Remaining: 0`. */
  lemma RejectionHeaders(table: map<string, Record>, req: Request, now: int)
    requires Handle(table, req, now).1.Reject?
    ensures var r := Handle(table, req, now).1;
            r.status == 429 && Header("Retry-After", "60") in r.headers
            && Header("X-RateLimit-Remaining", "0") in r.headers
            && r.body == ErrorJson(RateLimitError)
  {
    var key := RateLimitKey(req.forwardedFor);
    var v := Step(table, key, now).1;
    assert Handle(table, req, now).1 == GateResponse(v);
    assert !v.allowed && v.remaining == 0;
    assert NumberString(0) == "0";
    assert GateResponse(v).body == ErrorJson(RateLimitError);
  }

  /** The module-level `rateLimit` map and the functions that use it. */
  class Limiter {
    var rateLimit: map<string, Record>

    ghost predicate Valid()
      reads this
    {
      TableInvariant(rateLimit)
    }

    constructor ()
      ensures Valid() && rateLimit == map[]
    {
      rateLimit := map[];
    }

    /** `checkRateLimit(key)` with the clock reading passed in as `now`. */
    method CheckRateLimit(key: string, now: int) returns (allowed: bool, remaining: int)
      requires Valid()
      modifies this
      ensures Valid()
      ensures (rateLimit, Verdict(allowed, remaining)) == Step(old(rateLimit), key, now)
      ensures 0 <= remaining < MaxRequests
    {
      StepKeepsInvariant(rateLimit, key, now);
      if key !in rateLimit || now > rateLimit[key].resetTime {
        rateLimit := rateLimit[key := Record(1, now + Window)];
        return true, MaxRequests - 1;
      }
      var record := rateLimit[key];
      if record.count >= MaxRequests {
        assert rateLimit[key := record] == rateLimit;
        return false, 0;
      }
      record := record.(count := record.count + 1);
      rateLimit := rateLimit[key := record];
      return true, MaxRequests - record.count;
    }

    /** `middleware(request)` with the clock reading passed in as `now`. */
    method Middleware(req: Request, now: int) returns (resp: Response)
      requires Valid()
      modifies this
      ensures Valid()
      ensures (rateLimit, resp) == Handle(old(rateLimit), req, now)
    {
      if StartsWith(req.pathname, ApiPrefix) {
        var key := RateLimitKey(req.forwardedFor);
        var allowed, remaining := CheckRateLimit(key, now);
        resp := GateResponse(Verdict(allowed, remaining));
      } else {
        resp := PassThrough([]);
      }
    }
  }
}
