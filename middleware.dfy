/** The decisions of app/middleware.py: error replies, the per-client rate
  * limit, request validation, the GET response cache and the application's
  * exception types. Requests, handlers and the clock are parameters. */
module Middleware {
  import opened Text
  import Security

  /** A JSON error reply: status code, "error" text, "type", and the optional "message". */
  datatype Reply = Reply(status: int, error: string, kind: string, message: Option<string>)

  // ------------------------------------------------------------ ErrorHandlingMiddleware

  /** What the inner handler did: returned normally, raised an HTTPException, or raised anything else. */
  datatype Raised = NoError | HttpError(code: int, detail: string) | OtherError(text: string)

  const InternalError: string := "内部服务器错误"
  const InternalMessage: string := "服务器内部错误"

  /** The reply `ErrorHandlingMiddleware.dispatch` sends instead of the
    * handler's response (None: the handler's response goes out unchanged).
    * `debug` is whether the logger is enabled at DEBUG level. */
  function ErrorHandling(raised: Raised, debug: bool): (r: Option<Reply>)
    ensures r.None? <==> raised.NoError?
    ensures raised.HttpError? ==>
      r.value.status == raised.code && r.value.error == raised.detail && r.value.kind == "http_exception"
    ensures raised.OtherError? ==>
      r.value.status == 500 && r.value.error == InternalError && r.value.kind == "internal_error"
      && r.value.message.Some?
      && (r.value.message.value == raised.text <==> debug || raised.text == InternalMessage)
  {
    match raised
    case NoError => None
    case HttpError(code, detail) => Some(Reply(code, detail, "http_exception", None))
    case OtherError(text) => Some(Reply(500, InternalError, "internal_error", Some(if debug then text else InternalMessage)))
  }

  // ------------------------------------------------------------ RateLimitMiddleware

  /** The timestamps still within the window before now. */
  function Recent(ts: seq<real>, now: real, window: real): (r: seq<real>)
    ensures |r| <= |ts|
    ensures forall t :: t in r <==> t in ts && now - t < window
    ensures (forall t :: t in ts ==> now - t < window) ==> r == ts
  {
    FilterExact(ts, (t: real) => now - t < window);
    FilterAll(ts, (t: real) => now - t < window);
    Filter(ts, (t: real) => now - t < window)
  }

  /** The (time, 1) entries `Security.RateLimiter` keeps for the same requests. */
  function Ones(ts: seq<real>): (r: seq<(real, int)>)
    ensures |r| == |ts| && forall i :: 0 <= i < |ts| ==> r[i] == (ts[i], 1)
  {
    seq(|ts|, i requires 0 <= i < |ts| => (ts[i], 1))
  }

  /** This limiter counts timestamps where `Security.RateLimiter` sums counts
    * of 1, so both see the same number of requests in the window. */
  lemma {:induction false} SameCount(ts: seq<real>, now: real, window: real)
    ensures |Recent(ts, now, window)| == Security.CountSum(Security.InWindow(Ones(ts), now, window))
  {
    if |ts| > 0 {
      var init := ts[..|ts| - 1];
      SameCount(init, now, window);
      assert Ones(ts)[..|ts| - 1] == Ones(init);
      assert Ones(ts)[|ts| - 1] == (ts[|ts| - 1], 1);
    }
  }

  const TooManyRequests: string := "请求过于频繁，请稍后再试"

  /** `RateLimitMiddleware`: per client, the times of its recorded requests. */
  class RateLimitMiddleware {
    const maxRequests: int
    const window: real
    var requests: map<string, seq<real>>

    /** The most timestamps one client can have. */
    function Cap(): nat { if maxRequests < 0 then 0 else maxRequests }

    /** No client holds more than maxRequests timestamps. */
    predicate Valid()
      reads this
    {
      forall ip :: ip in requests ==> |requests[ip]| <= Cap()
    }

    constructor(maxRequests: int, window: real)
      ensures this.maxRequests == maxRequests && this.window == window
      ensures requests == map[] && Valid()
    {
      this.maxRequests := maxRequests;
      this.window := window;
      requests := map[];
    }

    /** The client's timestamps still within the window at time now. */
    function Kept(ip: string, now: real): seq<real>
      reads this
    {
      if ip in requests then Recent(requests[ip], now, window) else []
    }

    /** The requests map after a call at time now: the client's list pruned,
      * with now appended when the call is allowed. */
    function Recorded(ip: string, now: real): map<string, seq<real>>
      reads this
    {
      var kept := Kept(ip, now);
      if |kept| < maxRequests then requests[ip := kept + [now]]
      else if ip in requests then requests[ip := kept]
      else requests
    }

    /** `_is_allowed` at time now: the client's old timestamps are dropped;
      * it is refused, unrecorded, when maxRequests remain, and otherwise now
      * is recorded. Other clients are untouched. */
    method IsAllowed(ip: string, now: real) returns (allowed: bool)
      requires Valid()
      modifies this
      ensures Valid()
      ensures allowed <==> |old(Kept(ip, now))| < maxRequests
      ensures requests == old(Recorded(ip, now))
    {
      var kept := Kept(ip, now);
      if ip in requests {
        requests := requests[ip := kept];
      }
      if |kept| >= maxRequests {
        return false;
      }
      requests := requests[ip := kept + [now]];
      return true;
    }

    /** `dispatch`: a refused client gets the 429 reply, any other request goes on (None). */
    method Dispatch(ip: string, now: real) returns (refusal: Option<Reply>)
      requires Valid()
      modifies this
      ensures Valid()
      ensures refusal.Some? <==> |old(Kept(ip, now))| >= maxRequests
      ensures requests == old(Recorded(ip, now))
      ensures refusal.Some? ==> refusal.value == Reply(429, TooManyRequests, "rate_limit_exceeded", None)
    {
      var allowed := IsAllowed(ip, now);
      refusal := if allowed then None else Some(Reply(429, TooManyRequests, "rate_limit_exceeded", None));
    }
  }

  /** With at most 3 requests a minute, the fourth request in the window gets 429. */
  method FourthRequestGets429() returns (r1: Option<Reply>, r2: Option<Reply>, r3: Option<Reply>, r4: Option<Reply>)
    ensures r1.None? && r2.None? && r3.None?
    ensures r4.Some? && r4.value.status == 429 && r4.value.kind == "rate_limit_exceeded"
  {
    var limiter := new RateLimitMiddleware(3, 60.0);
    var ip := "testclient";
    var k0: seq<real> := [];
    r1 := AllowedRequest(limiter, ip, 1.0, k0, 2.0);
    var k1 := k0 + [1.0];
    r2 := AllowedRequest(limiter, ip, 2.0, k1, 3.0);
    var k2 := k1 + [2.0];
    r3 := AllowedRequest(limiter, ip, 3.0, k2, 4.0);
    r4 := limiter.Dispatch(ip, 4.0);
  }

  /** A request with fewer than maxRequests timestamps kept goes on and is
    * recorded; at a later time next, still within the window of all of them,
    * they are all kept. */
  method AllowedRequest(limiter: RateLimitMiddleware, ip: string, now: real, kept: seq<real>, next: real) returns (r: Option<Reply>)
    requires limiter.Valid() && limiter.Kept(ip, now) == kept && |kept| < limiter.maxRequests
    requires next - now < limiter.window && forall i :: 0 <= i < |kept| ==> next - kept[i] < limiter.window
    modifies limiter
    ensures limiter.Valid() && r.None?
    ensures limiter.Kept(ip, next) == kept + [now]
  {
    r := limiter.Dispatch(ip, now);
    RecentFresh(kept + [now], next, limiter.window);
  }

  /** Timestamps all inside the window are all kept. */
  lemma RecentFresh(ts: seq<real>, now: real, window: real)
    requires forall i :: 0 <= i < |ts| ==> now - ts[i] < window
    ensures Recent(ts, now, window) == ts
  {
  }

  // ------------------------------------------------------------ RequestValidationMiddleware

  /** Python's `int(s)` for a decimal literal: white space around, an optional
    * sign, then ASCII digits in which single underscores may separate two
    * digits (`20_000_000`); anything else is a ValueError (None). */
  function ParseInt(s: string): (r: Option<int>)
    ensures r.Some? ==> |Strip(s)| > 0
  {
    ParseSigned(Strip(s))
  }

  /** The literal itself, once the white space is stripped. */
  function ParseSigned(t: string): (r: Option<int>)
    ensures r.Some? ==> |t| > 0
  {
    if |t| > 0 && (t[0] == '+' || t[0] == '-') then
      match ParseDigits(t[1..])
      case Some(v) => Some(if t[0] == '-' then -v else v)
      case None => None
    else ParseDigits(t)
  }

  /** The unsigned part: grouped digits and their value. */
  function ParseDigits(d: string): (r: Option<int>)
    ensures r.Some? ==> |d| > 0 && r.value >= 0
  {
    if |d| > 0 && AllDigits(d) then Some(DigitsValue(d))
    else if GroupedDigits(d) then Some(GroupedValue(d))
    else None
  }

  /** Python's grammar for the digits of a decimal literal: a digit, then
    * digits each optionally preceded by one underscore. */
  predicate GroupedDigits(d: string) {
    |d| > 0 && IsDigit(d[0]) && GroupedRest(d[1..])
  }

  predicate GroupedRest(d: string)
    decreases |d|
  {
    || |d| == 0
    || (IsDigit(d[0]) && GroupedRest(d[1..]))
    || (|d| > 1 && d[0] == '_' && IsDigit(d[1]) && GroupedRest(d[2..]))
  }

  /** The characters other than '_', in order. */
  function DropUnderscores(d: string): string {
    if |d| == 0 then []
    else (if d[0] == '_' then [] else [d[0]]) + DropUnderscores(d[1..])
  }

  /** The value of the digits once the underscores are dropped. */
  function GroupedValue(d: string): nat
    requires GroupedDigits(d)
  {
    GroupedDropDigits(d);
    DigitsValue(DropUnderscores(d))
  }

  /** Dropping the underscores of grouped digits leaves a run of digits. */
  lemma GroupedDropDigits(d: string)
    requires GroupedDigits(d)
    ensures |DropUnderscores(d)| > 0 && AllDigits(DropUnderscores(d))
  {
    RestDropDigits(d[1..]);
    assert DropUnderscores(d) == [d[0]] + DropUnderscores(d[1..]);
  }

  lemma {:induction false} RestDropDigits(d: string)
    requires GroupedRest(d)
    ensures AllDigits(DropUnderscores(d))
    decreases |d|
  {
    if |d| > 0 {
      if IsDigit(d[0]) && GroupedRest(d[1..]) {
        RestDropDigits(d[1..]);
        assert DropUnderscores(d) == [d[0]] + DropUnderscores(d[1..]);
      } else {
        RestDropDigits(d[2..]);
        assert d[1..][1..] == d[2..];
        assert DropUnderscores(d) == DropUnderscores(d[1..]) == [d[1]] + DropUnderscores(d[2..]);
      }
    }
  }

  /** A plain run of digits is grouped and loses nothing. */
  lemma {:induction false} DigitsGrouped(d: string)
    requires AllDigits(d)
    ensures DropUnderscores(d) == d
    ensures GroupedRest(d)
    ensures |d| > 0 ==> GroupedDigits(d)
  {
    if |d| > 0 {
      DigitsGrouped(d[1..]);
      assert IsDigit(d[0]);
    }
  }

  /** `str(n)` for an integer. */
  function IntToString(n: int): (r: string)
    ensures |r| > 0
  {
    if n < 0 then "-" + NatToString(-n) else NatToString(n)
  }

  /** Reading back the decimal text of any integer gives that integer. */
  lemma ParseIntRoundTrip(n: int)
    ensures ParseInt(IntToString(n)) == Some(n)
  {
    if n < 0 {
      RoundTripNegative(n);
    } else {
      RoundTripNatural(n);
    }
  }

  lemma RoundTripNatural(n: nat)
    ensures ParseInt(IntToString(n)) == Some(n)
  {
    var d := NatToString(n);
    NatToStringValue(n);
    DigitsNoSpace(d);
    StripNoop(d);
    ParseSignedDigits(d);
  }

  lemma RoundTripNegative(n: int)
    requires n < 0
    ensures ParseInt(IntToString(n)) == Some(n)
  {
    NatToStringValue(-n);
    ParseIntNegative(IntToString(n), NatToString(-n));
    var v: int := DigitsValue(NatToString(-n));
    assert v == -n;
    var r := ParseInt(IntToString(n));
    assert r == Some(-v);
    assert -v == n;
  }

  /** A minus sign and a run of digits read as minus its value. */
  lemma ParseIntNegative(t: string, d: string)
    requires |d| > 0 && AllDigits(d) && t == "-" + d
    ensures ParseInt(t) == Some(-(DigitsValue(d) as int))
  {
    assert t[0] == '-' && t[1..] == d && t[|t| - 1] == d[|d| - 1];
    StripNoop(t);
    ParseSignedNegative(t);
  }

  /** A run of digits reads as its value. */
  lemma ParseSignedDigits(d: string)
    requires |d| > 0 && AllDigits(d)
    ensures ParseSigned(d) == Some(DigitsValue(d) as int)
  {
    assert IsDigit(d[0]);
    ParseDigitsPlain(d);
  }

  /** A minus sign and a run of digits read as minus its value. */
  lemma ParseSignedNegative(t: string)
    requires |t| > 1 && t[0] == '-' && AllDigits(t[1..])
    ensures ParseSigned(t) == Some(-(DigitsValue(t[1..]) as int))
  {
    ParseDigitsPlain(t[1..]);
  }

  lemma ParseDigitsPlain(d: string)
    requires |d| > 0 && AllDigits(d)
    ensures ParseDigits(d) == Some(DigitsValue(d) as int)
  {
  }

  lemma DigitsNoSpace(d: string)
    requires |d| > 0 && AllDigits(d)
    ensures !IsSpace(d[0]) && !IsSpace(d[|d| - 1])
  {
    assert IsDigit(d[0]) && IsDigit(d[|d| - 1]);
  }

  /** Bodies above 10 MiB are refused. */
  const MaxBody: int := 10 * 1024 * 1024

  const AllowedMethods: seq<string> := ["GET", "POST", "PUT", "DELETE", "HEAD", "OPTIONS"]

  /** The content-length header is present, non-empty, an integer, and above the limit. */
  predicate TooLarge(contentLength: Option<string>) {
    contentLength.Some? && |contentLength.value| > 0
    && ParseInt(contentLength.value).Some? && ParseInt(contentLength.value).value > MaxBody
  }

  /** The reply `RequestValidationMiddleware.dispatch` sends instead of calling the handler (None: it calls it). */
  function ValidateRequest(contentLength: Option<string>, verb: string): (r: Option<Reply>)
    ensures r.None? <==> !TooLarge(contentLength) && verb in AllowedMethods
    ensures TooLarge(contentLength) ==> r.Some? && r.value.status == 413
    ensures r.Some? && !TooLarge(contentLength) ==> r.value.status == 405
    ensures r.Some? && r.value.status == 413 ==> r.value.kind == "payload_too_large"
    ensures r.Some? && r.value.status == 405 ==> r.value.kind == "method_not_allowed"
  {
    if TooLarge(contentLength) then Some(Reply(413, "请求体过大", "payload_too_large", None))
    else if verb !in AllowedMethods then Some(Reply(405, "不支持的请求方法", "method_not_allowed", None))
    else None
  }

  /** A length header holding an integer above 10 MiB (such as the decimal
    * text `IntToString(n)` of any n, by ParseIntRoundTrip) is refused with 413
    * whatever the method; one within the limit lets an allowed method through. */
  lemma ValidateRequestLength(text: string, verb: string)
    requires ParseInt(text).Some?
    ensures ParseInt(text).value > MaxBody ==> ValidateRequest(Some(text), verb).value.status == 413
    ensures ParseInt(text).value <= MaxBody && verb in AllowedMethods ==> ValidateRequest(Some(text), verb).None?
  {
  }

  /** TRACE is refused with 405, and a length that is not an integer is ignored. */
  lemma ValidateRequestExamples()
    ensures ValidateRequest(None, "TRACE") == Some(Reply(405, "不支持的请求方法", "method_not_allowed", None))
    ensures ValidateRequest(Some("abc"), "GET").None?
  {
    TraceNotAllowed();
    assert ParseInt("abc") == None by {
      StripNoop("abc");
      assert !IsDigit("abc"[0]);
    }
  }

  /** A length written with underscore groups is read like `int()` reads it:
    * "20_000_000" is above 10 MiB and is refused with 413. */
  lemma GroupedLengthRefused()
    ensures ParseInt("20_000_000") == Some(20000000)
    ensures ValidateRequest(Some("20_000_000"), "GET").value.status == 413
  {
    var t := "20_000_000";
    GroupedTwenty();
    DigitsOfTwenty();
    assert !IsDigit(t[2]);
    StripNoop(t);
    assert ParseDigits(t) == Some(20000000);
  }

  lemma GroupedTwenty()
    ensures GroupedDigits("20_000_000") && DropUnderscores("20_000_000") == "20000000"
  {
    ThousandGroup();
    TwentyPlain();
    TwoGroups("20", "_000");
    assert "20_000_000" == "20" + "_000" + "_000";
    assert "20" + "000" + "000" == "20000000";
  }

  lemma TwentyPlain()
    ensures GroupedDigits("20") && DropUnderscores("20") == "20"
  {
    DigitsGrouped("20");
  }

  /** A number followed by two groups is still a grouped number. */
  lemma TwoGroups(a: string, g: string)
    requires GroupedDigits(a) && GroupedRest(g)
    ensures GroupedDigits(a + g + g)
    ensures DropUnderscores(a + g + g) == DropUnderscores(a) + DropUnderscores(g) + DropUnderscores(g)
  {
    RestConcat(a[1..], g);
    RestConcat(a[1..] + g, g);
    assert (a + g + g)[1..] == a[1..] + g + g;
    DropConcat(a, g);
    DropConcat(a + g, g);
  }

  /** "_000" is one underscore group and drops to "000". */
  lemma ThousandGroup()
    ensures GroupedRest("_000") && DropUnderscores("_000") == "000"
  {
    DigitsGrouped("000");
    assert "_000"[1..] == "000" && "_000"[2..] == "00";
  }

  /** Two runs of groups make one. */
  lemma {:induction false} RestConcat(a: string, b: string)
    requires GroupedRest(a) && GroupedRest(b)
    ensures GroupedRest(a + b)
    decreases |a|
  {
    if |a| == 0 {
      assert a + b == b;
    } else if IsDigit(a[0]) && GroupedRest(a[1..]) {
      RestConcat(a[1..], b);
      assert (a + b)[1..] == a[1..] + b;
    } else {
      RestConcat(a[2..], b);
      assert (a + b)[2..] == a[2..] + b;
    }
  }

  /** Dropping the underscores works piece by piece. */
  lemma {:induction false} DropConcat(a: string, b: string)
    ensures DropUnderscores(a + b) == DropUnderscores(a) + DropUnderscores(b)
    decreases |a|
  {
    if |a| == 0 {
      assert a + b == b;
    } else {
      var head := if a[0] == '_' then [] else [a[0]];
      DropConcat(a[1..], b);
      assert (a + b)[0] == a[0] && (a + b)[1..] == a[1..] + b;
      assert DropUnderscores(a + b) == head + DropUnderscores(a[1..] + b);
      assert DropUnderscores(a) == head + DropUnderscores(a[1..]);
    }
  }

  lemma DigitsOfTwenty()
    ensures DigitsValue("20000000") == 20000000
  {
    assert "2"[..0] == "";
    assert DigitsValue("2") == 2;
    assert "20"[..1] == "2";
    assert DigitsValue("20") == 20;
    assert "200"[..2] == "20";
    assert DigitsValue("200") == 200;
    assert "2000"[..3] == "200";
    assert DigitsValue("2000") == 2000;
    assert "20000"[..4] == "2000";
    assert DigitsValue("20000") == 20000;
    assert "200000"[..5] == "20000";
    assert DigitsValue("200000") == 200000;
    assert "2000000"[..6] == "200000";
    assert DigitsValue("2000000") == 2000000;
    assert "20000000"[..7] == "2000000";
  }

  lemma TraceNotAllowed()
    ensures "TRACE" !in AllowedMethods
  {
    assert forall m :: m in AllowedMethods ==> |m| != 5;
  }

  // ------------------------------------------------------------ CachingMiddleware

  /** A response as the cache holds it. */
  datatype Response = Response(status: int, body: string)

  datatype CacheEntry = CacheEntry(response: Response, timestamp: real)

  /** Cached responses are served for 300 seconds. */
  const CacheSeconds: real := 300.0

  /** `f"{path}:{query}"`. */
  function CacheKey(path: string, query: string): (k: string)
    ensures |k| == |path| + 1 + |query|
    ensures k[..|path|] == path && k[|path|] == ':' && k[|path| + 1..] == query
  {
    path + ":" + query
  }

  /** The key does not tell a ':' in the path from the separator. */
  lemma CacheKeyCollides()
    ensures CacheKey("/a:b", "c") == CacheKey("/a", "b:c")
  {
  }

  /** `CachingMiddleware`: responses of GET requests by key, with the time stored. */
  class CachingMiddleware {
    var cache: map<string, CacheEntry>

    /** Only successful responses are cached. */
    predicate Valid()
      reads this
    {
      forall k :: k in cache ==> cache[k].response.status == 200
    }

    constructor()
      ensures cache == map[] && Valid()
    {
      cache := map[];
    }

    /** A cached response for the key that is still fresh at time now. */
    predicate FreshAt(key: string, now: real)
      reads this
    {
      key in cache && now - cache[key].timestamp < CacheSeconds
    }

    /** `dispatch`: `now` is the time of the cache check, `handled` what the
      * handler returns when it is called and `later` the time after it.
      * A fresh hit is served without the handler; otherwise the handler's
      * response goes out and, for a GET with status 200, is stored. */
    method Dispatch(verb: string, path: string, query: string, now: real, handled: Response, later: real)
      returns (response: Response, hit: bool)
      requires Valid()
      modifies this
      ensures Valid()
      ensures hit <==> verb == "GET" && old(FreshAt(CacheKey(path, query), now))
      ensures hit ==> response == old(cache)[CacheKey(path, query)].response && response.status == 200
      ensures hit ==> cache == old(cache)
      ensures !hit ==> response == handled
      ensures !hit && verb == "GET" && handled.status == 200 ==>
        cache == old(cache)[CacheKey(path, query) := CacheEntry(handled, later)]
      ensures !hit && (verb != "GET" || handled.status != 200) ==> cache == old(cache)
    {
      if verb != "GET" {
        return handled, false;
      }
      var key := CacheKey(path, query);
      if key in cache {
        var item := cache[key];
        if now - item.timestamp < CacheSeconds {
          return item.response, true;
        }
      }
      response, hit := handled, false;
      if response.status == 200 {
        cache := cache[key := CacheEntry(response, later)];
      }
    }
  }

  // ------------------------------------------------------------ AppException

  /** `AppException` and its subclasses: the message, status code and error type. */
  datatype AppError = AppError(message: string, status: int, errorType: string)

  function AppException(message: string, status: int := 500, errorType: string := "app_error"): AppError {
    AppError(message, status, errorType)
  }

  function ValidationException(message: string): AppError { AppException(message, 400, "validation_error") }

  function SecurityException(message: string): AppError { AppException(message, 403, "security_error") }

  function NotFoundException(message: string): AppError { AppException(message, 404, "not_found") }

  /** `str(exc)`. */
  function ExceptionText(e: AppError): string { e.message }

  /** `handle_app_exception`: the reply carries the exception's status, message and type. */
  function HandleAppException(e: AppError): (r: Reply)
    ensures r.status == e.status && r.error == ExceptionText(e) && r.kind == e.errorType
  {
    Reply(e.status, e.message, e.errorType, None)
  }

  /** Each exception type keeps its message and answers with its own status
    * and type: 500/app_error by default, 400, 403 and 404 for the subclasses. */
  lemma ExceptionReplies(m: string)
    ensures HandleAppException(AppException(m)) == Reply(500, m, "app_error", None)
    ensures HandleAppException(ValidationException(m)) == Reply(400, m, "validation_error", None)
    ensures HandleAppException(SecurityException(m)) == Reply(403, m, "security_error", None)
    ensures HandleAppException(NotFoundException(m)) == Reply(404, m, "not_found", None)
    ensures ExceptionText(ValidationException(m)) == ExceptionText(SecurityException(m)) == m
  {
  }
}
