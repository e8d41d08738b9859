// The client of the upstream telemetry service (src/services/f1Api.ts).
// HTTP is replaced by the answer the upstream gives to each request: a body
// (possibly JSON null) or a failure carrying the transport's error code, the
// HTTP status and a message. The class keeps the two fields the source keeps
// (the race-control call counter and the cached race-control messages) plus a
// ghost trace of the requests issued, in order.

module F1Api {
  import opened Wrappers
  import opened Records

  // ---------------------------------------------------------------------------
  // Upstream answers and the request wrapper (f1Api.ts:24-47)
  // ---------------------------------------------------------------------------

  /** What a failed request reports: `error.code`, `error.response?.status`, `error.message`. */
  datatype Fault = Fault(code: Option<string>, status: Option<int>, message: string)

  /** The upstream's answer to one request. */
  datatype Response<T> = Ok(body: Nullable<seq<T>>) | Err(fault: Fault)

  /** The four errors `makeRequest` rethrows. */
  datatype ApiError = Timeout | RateLimited | ServerDown | FetchFailed(detail: string)

  /** A request's result or the message of the error it throws. */
  datatype Outcome<T> = Success(value: T) | Thrown(message: string)

  /** The error a fault becomes, checked in the source's priority order: an
      aborted connection first (whatever the status), then status 429, then
      any status of 500 or more, and otherwise a generic failure carrying the
      original message. A missing status compares false with 429 and 500. */
  function Classify(f: Fault): (e: ApiError)
    ensures e == Timeout <==> f.code == Some("ECONNABORTED")
    ensures e == RateLimited <==> f.code != Some("ECONNABORTED") && f.status == Some(429)
    ensures e == ServerDown <==>
      f.code != Some("ECONNABORTED") && f.status != Some(429) && f.status.Some? && f.status.value >= 500
    ensures e.FetchFailed? <==>
      f.code != Some("ECONNABORTED") && (f.status.None? || (f.status.value != 429 && f.status.value < 500))
    ensures e.FetchFailed? ==> e.detail == f.message
  {
    if f.code == Some("ECONNABORTED") then Timeout
    else if f.status == Some(429) then RateLimited
    else if f.status.Some? && f.status.value >= 500 then ServerDown
    else FetchFailed(f.message)
  }

  const FetchFailedPrefix: string := "Failed to fetch data: "

  /** The message of the `Error` thrown for each classified failure. */
  function ErrorMessage(e: ApiError): (m: string)
    ensures e.FetchFailed? <==> |FetchFailedPrefix| <= |m| && m[..|FetchFailedPrefix|] == FetchFailedPrefix
  {
    match e
    case Timeout =>
      var m := "Request timeout - API might be slow";
      assert m[0] != FetchFailedPrefix[0];
      m
    case RateLimited =>
      var m := "Rate limit exceeded - too many requests";
      assert m[0] != FetchFailedPrefix[0];
      m
    case ServerDown =>
      var m := "Server error - API is down";
      assert m[0] != FetchFailedPrefix[0];
      m
    case FetchFailed(detail) => FetchFailedPrefix + detail
  }

  /** Recovers the error from its message. */
  function ReadError(message: string): Option<ApiError>
  {
    if |FetchFailedPrefix| <= |message| && message[..|FetchFailedPrefix|] == FetchFailedPrefix then
      Some(FetchFailed(message[|FetchFailedPrefix|..]))
    else if message == "Request timeout - API might be slow" then Some(Timeout)
    else if message == "Rate limit exceeded - too many requests" then Some(RateLimited)
    else if message == "Server error - API is down" then Some(ServerDown)
    else None
  }

  /** Every error's message identifies it: no two classifications throw the same text. */
  lemma ReadErrorMessage(e: ApiError)
    ensures ReadError(ErrorMessage(e)) == Some(e)
  {
    var m := ErrorMessage(e);
    if e.FetchFailed? {
      assert m[..|FetchFailedPrefix|] == FetchFailedPrefix;
      assert m[|FetchFailedPrefix|..] == e.detail;
    } else {
      assert m[0] != FetchFailedPrefix[0];
    }
  }

  lemma ErrorMessageInjective(e1: ApiError, e2: ApiError)
    requires ErrorMessage(e1) == ErrorMessage(e2)
    ensures e1 == e2
  {
    ReadErrorMessage(e1);
    ReadErrorMessage(e2);
  }

  /** `makeRequest`: the response body, or the classified error rethrown. */
  function MakeRequest<T>(r: Response<T>): (o: Outcome<Nullable<seq<T>>>)
    ensures r.Ok? <==> o.Success?
    ensures r.Ok? ==> o.value == r.body
    ensures r.Err? ==> ReadError(o.message) == Some(Classify(r.fault))
  {
    match r
    case Ok(body) => Success(body)
    case Err(f) =>
      ReadErrorMessage(Classify(f));
      Thrown(ErrorMessage(Classify(f)))
  }

  /** What every per-feed getter returns: `data || []`, and `[]` when the request throws. */
  function FeedOrEmpty<T>(r: Response<T>): (d: seq<T>)
    ensures r == Ok(NonNull(d)) || d == []
  {
    match MakeRequest(r)
    case Success(NonNull(data)) => data
    case _ => []
  }

  /** The list a response carries, empty for a null body or a failure. */
  lemma FeedOrEmptyCases<T>(r: Response<T>)
    ensures r.Ok? && r.body.NonNull? ==> FeedOrEmpty(r) == r.body.value
    ensures r.Err? || r.body.Null? ==> FeedOrEmpty(r) == []
  {
  }

  // ---------------------------------------------------------------------------
  // Session resolution (f1Api.ts:49-69)
  // ---------------------------------------------------------------------------

  /** A response that yields at least one session (`sessions && sessions.length`). */
  predicate HasSessions(r: Response<Session>)
  {
    r.Ok? && r.body.NonNull? && |r.body.value| > 0
  }

  /** The previous year is asked only when the current year's request
      succeeded with a null or empty list. */
  predicate NeedsPreviousYear(current: Response<Session>)
  {
    current.Ok? && !HasSessions(current)
  }

  function LastSession(r: Response<Session>): Session
    requires HasSessions(r)
  {
    r.body.value[|r.body.value| - 1]
  }

  /** `getLatestSession` given the answers for the current and the previous
      year (the second is consulted only when `NeedsPreviousYear(current)`). */
  function LatestSession(current: Response<Session>, previous: Response<Session>): (r: Option<Session>)
    ensures HasSessions(current) ==> r == Some(LastSession(current))
    ensures NeedsPreviousYear(current) && HasSessions(previous) ==> r == Some(LastSession(previous))
  {
    match MakeRequest(current)
    case Thrown(_) => None
    case Success(sessions) =>
      if sessions.NonNull? && |sessions.value| > 0 then Some(sessions.value[|sessions.value| - 1])
      else
        match MakeRequest(previous)
        case Thrown(_) => None
        case Success(older) =>
          if older.NonNull? && |older.value| > 0 then Some(older.value[|older.value| - 1]) else None
  }

  /** A session resolves exactly when one of the two years listed one, the
      current year's request did not fail, and then it is the last listed. */
  lemma LatestSessionResolves(current: Response<Session>, previous: Response<Session>)
    ensures LatestSession(current, previous).Some? <==>
      HasSessions(current) || (NeedsPreviousYear(current) && HasSessions(previous))
    ensures current.Err? ==> LatestSession(current, previous).None?
    ensures NeedsPreviousYear(current) && !HasSessions(previous) ==> LatestSession(current, previous).None?
  {
  }

  // ---------------------------------------------------------------------------
  // The race-control cache (f1Api.ts:122-156)
  // ---------------------------------------------------------------------------

  /** The service's two fields: `raceControlCounter` and `lastRaceControlData`. */
  datatype CacheState = CacheState(counter: nat, cache: seq<RaceControl>)

  /** After the counter is incremented, a call is served from the cache when it
      is not forced, the new counter is not a multiple of 3 and the cache is not
      empty. */
  predicate ServedFromCache(s: CacheState, forceRefresh: bool)
  {
    !forceRefresh && (s.counter + 1) % 3 != 0 && |s.cache| > 0
  }

  /** The state after one `getRaceControl` call whose fetch (when made) gets `answer`. */
  function CacheStep(s: CacheState, forceRefresh: bool, answer: Response<RaceControl>): (r: CacheState)
    ensures r.counter == s.counter + 1
  {
    var counter := s.counter + 1;
    if ServedFromCache(s, forceRefresh) then CacheState(counter, s.cache)
    else
      match MakeRequest(answer)
      case Thrown(_) => CacheState(counter, s.cache)
      case Success(messages) => CacheState(counter, if messages.NonNull? then messages.value else [])
  }

  /** One call's effect on the cached messages: kept when served from the cache
      or when the fetch fails; otherwise replaced by the fetched list, or by
      `[]` for a null body. */
  lemma CacheStepCases(s: CacheState, forceRefresh: bool, answer: Response<RaceControl>)
    ensures ServedFromCache(s, forceRefresh) ==> CacheStep(s, forceRefresh, answer).cache == s.cache
    ensures !ServedFromCache(s, forceRefresh) && answer.Err? ==> CacheStep(s, forceRefresh, answer).cache == s.cache
    ensures !ServedFromCache(s, forceRefresh) && answer.Ok? ==>
      CacheStep(s, forceRefresh, answer).cache == FeedOrEmpty(answer)
    ensures |s.cache| == 0 ==> !ServedFromCache(s, forceRefresh)
    ensures forceRefresh ==> !ServedFromCache(s, forceRefresh)
  {
  }

  /** An answer after which the cache is not empty, when it started non-empty. */
  predicate KeepsCacheFilled(answer: Response<RaceControl>)
  {
    answer.Err? || (answer.body.NonNull? && |answer.body.value| > 0)
  }

  /** An answer after which an empty cache stays empty. */
  predicate EmptiesCache(answer: Response<RaceControl>)
  {
    answer.Err? || answer.body.Null? || answer.body.value == []
  }

  /** One `getRaceControl` call: whether it is forced and what a fetch would get. */
  datatype Call = Call(forceRefresh: bool, answer: Response<RaceControl>)

  /** The state after a sequence of calls. */
  function Run(s: CacheState, calls: seq<Call>): CacheState
    decreases |calls|
  {
    if calls == [] then s else Run(CacheStep(s, calls[0].forceRefresh, calls[0].answer), calls[1..])
  }

  /** How many of the calls issue a request. */
  function Fetches(s: CacheState, calls: seq<Call>): nat
    decreases |calls|
  {
    if calls == [] then 0
    else
      (if ServedFromCache(s, calls[0].forceRefresh) then 0 else 1)
        + Fetches(CacheStep(s, calls[0].forceRefresh, calls[0].answer), calls[1..])
  }

  /** Every call advances the counter by exactly one, forced, cached or failed alike. */
  lemma {:induction false} RunCounts(s: CacheState, calls: seq<Call>)
    ensures Run(s, calls).counter == s.counter + |calls|
    decreases |calls|
  {
    if calls != [] {
      RunCounts(CacheStep(s, calls[0].forceRefresh, calls[0].answer), calls[1..]);
    }
  }

  /** Unforced calls on a cache that stays filled fetch exactly when the counter
      reaches a multiple of 3. */
  lemma UnforcedFetches(s: CacheState, calls: seq<Call>)
    requires |s.cache| > 0
    requires forall i :: 0 <= i < |calls| ==> !calls[i].forceRefresh && KeepsCacheFilled(calls[i].answer)
    ensures Fetches(s, calls) == (s.counter + |calls|) / 3 - s.counter / 3
  {
    FetchesAreMultiples(s, calls);
    MultiplesCount(s.counter, |calls|);
  }

  /** How many of the counts `c + 1`, ..., `c + n` are multiples of 3. */
  function Multiples(c: nat, n: nat): nat
    decreases n
  {
    if n == 0 then 0 else (if (c + 1) % 3 == 0 then 1 else 0) + Multiples(c + 1, n - 1)
  }

  lemma {:induction false} MultiplesCount(c: nat, n: nat)
    ensures Multiples(c, n) == (c + n) / 3 - c / 3
    decreases n
  {
    if n > 0 {
      MultiplesCount(c + 1, n - 1);
      ThirdCall(c, n, Multiples(c, n) - Multiples(c + 1, n - 1), Multiples(c + 1, n - 1));
    }
  }

  /** With the cache kept filled, a call fetches exactly when the counter reaches a multiple of 3. */
  lemma {:induction false} FetchesAreMultiples(s: CacheState, calls: seq<Call>)
    requires |s.cache| > 0
    requires forall i :: 0 <= i < |calls| ==> !calls[i].forceRefresh && KeepsCacheFilled(calls[i].answer)
    ensures Fetches(s, calls) == Multiples(s.counter, |calls|)
    decreases |calls|
  {
    if calls != [] {
      var next := CacheStep(s, calls[0].forceRefresh, calls[0].answer);
      FilledStep(s, calls[0]);
      assert forall i :: 0 <= i < |calls[1..]| ==> calls[1..][i] == calls[i + 1];
      FetchesAreMultiples(next, calls[1..]);
    }
  }

  /** An unforced call on a filled cache keeps it filled, whatever the answer. */
  lemma FilledStep(s: CacheState, call: Call)
    requires |s.cache| > 0
    requires !call.forceRefresh && KeepsCacheFilled(call.answer)
    ensures |CacheStep(s, call.forceRefresh, call.answer).cache| > 0
  {
    var answer := call.answer;
    if answer.Err? {
      assert MakeRequest(answer).Thrown?;
    } else {
      assert MakeRequest(answer) == Success(answer.body);
    }
  }

  /** Counting one more call passes a multiple of 3 exactly when the new count is one. */
  lemma ThirdCall(c: nat, n: nat, fetched: int, rest: int)
    requires n > 0
    requires fetched == if (c + 1) % 3 != 0 then 0 else 1
    requires rest == (c + 1 + (n - 1)) / 3 - (c + 1) / 3
    ensures fetched + rest == (c + n) / 3 - c / 3
  {
  }

  /** With a filled cache, any three consecutive unforced calls fetch once. */
  lemma ThreeCallsFetchOnce(s: CacheState, calls: seq<Call>)
    requires |s.cache| > 0 && |calls| == 3
    requires forall i :: 0 <= i < |calls| ==> !calls[i].forceRefresh && KeepsCacheFilled(calls[i].answer)
    ensures Fetches(s, calls) == 1
  {
    UnforcedFetches(s, calls);
  }

  /** While the cache is empty every call fetches. */
  lemma {:induction false} EmptyCacheAlwaysFetches(s: CacheState, calls: seq<Call>)
    requires |s.cache| == 0
    requires forall i :: 0 <= i < |calls| ==> EmptiesCache(calls[i].answer)
    ensures Fetches(s, calls) == |calls|
    decreases |calls|
  {
    if calls != [] {
      UnforcedFetchesEmptyStep(s, calls[0]);
      EmptyCacheAlwaysFetches(CacheStep(s, calls[0].forceRefresh, calls[0].answer), calls[1..]);
    }
  }

  lemma UnforcedFetchesEmptyStep(s: CacheState, call: Call)
    requires |s.cache| == 0
    requires EmptiesCache(call.answer)
    ensures !ServedFromCache(s, call.forceRefresh)
    ensures |CacheStep(s, call.forceRefresh, call.answer).cache| == 0
  {
  }

  // ---------------------------------------------------------------------------
  // Requests and the service
  // ---------------------------------------------------------------------------

  /** The endpoints the service calls, with their parameters. */
  datatype Request =
    | SessionsOfYear(year: int)
    | DriversOf(sessionKey: int)
    | PositionsOf(sessionKey: int)
    | LapsOf(sessionKey: int)
    | IntervalsOf(sessionKey: int)
    | RaceControlOf(sessionKey: int)
    | CarDataOf(sessionKey: int, limit: int)

  /** The upstream's answer to each request. */
  datatype Upstream = Upstream(
    sessions: int -> Response<Session>,
    drivers: int -> Response<Driver>,
    positions: int -> Response<Position>,
    laps: int -> Response<Timing>,
    intervals: int -> Response<Interval>,
    raceControl: int -> Response<RaceControl>,
    carData: (int, int) -> Response<CarData>)

  /** `DashboardData` without its `lastUpdated` clock reading. */
  datatype Snapshot = Snapshot(
    session: Option<Session>,
    drivers: seq<Driver>,
    positions: seq<Position>,
    carData: seq<CarData>,
    timing: seq<Timing>,
    intervals: seq<Interval>,
    raceControl: seq<RaceControl>)

  const EmptySnapshot := Snapshot(None, [], [], [], [], [], [])

  /** The requests `getLatestSession` issues in `year`. */
  function SessionRequests(year: int, current: Response<Session>): (r: seq<Request>)
    ensures 1 <= |r| <= 2 && r[0] == SessionsOfYear(year)
    ensures |r| == 2 <==> NeedsPreviousYear(current)
    ensures |r| == 2 ==> r[1] == SessionsOfYear(year - 1)
  {
    [SessionsOfYear(year)] + if NeedsPreviousYear(current) then [SessionsOfYear(year - 1)] else []
  }

  /** The requests `getBatchData` issues: the session resolution, then the
      per-feed requests in a fixed order, all for the given session key,
      ending with race control only when the cache does not serve the call. */
  function BatchRequests(year: int, current: Response<Session>, sessionKey: int, fetchesRaceControl: bool): (r: seq<Request>)
    ensures |r| == |SessionRequests(year, current)| + if fetchesRaceControl then 5 else 4
    ensures r[..|SessionRequests(year, current)|] == SessionRequests(year, current)
    ensures var feeds := r[|SessionRequests(year, current)|..];
      && |feeds| == (if fetchesRaceControl then 5 else 4)
      && feeds[..4] == [DriversOf(sessionKey), PositionsOf(sessionKey), LapsOf(sessionKey), IntervalsOf(sessionKey)]
      && (fetchesRaceControl ==> feeds[4] == RaceControlOf(sessionKey))
    ensures forall i :: 0 <= i < |r| ==> r[i].SessionsOfYear? || r[i].sessionKey == sessionKey
    ensures forall i :: 0 <= i < |r| ==> !r[i].CarDataOf?
  {
    SessionRequests(year, current)
      + [DriversOf(sessionKey), PositionsOf(sessionKey), LapsOf(sessionKey), IntervalsOf(sessionKey)]
      + (if fetchesRaceControl then [RaceControlOf(sessionKey)] else [])
  }

  /** Appending the parts of a batch one after another appends the batch. */
  lemma BatchTrace(before: seq<Request>, sessions: seq<Request>, feeds: seq<Request>, rc: seq<Request>)
    ensures before + sessions + feeds + rc == before + (sessions + feeds + rc)
  {
  }

  /** Appending the four feed requests one at a time appends them together. */
  lemma FeedTrace(resolved: seq<Request>, feeds: seq<Request>)
    requires |feeds| == 4
    ensures resolved + [feeds[0]] + [feeds[1]] + [feeds[2]] + [feeds[3]] == resolved + feeds
  {
    assert feeds == [feeds[0]] + [feeds[1]] + [feeds[2]] + [feeds[3]];
  }

  class ApiService {
    var raceControlCounter: nat
    var lastRaceControlData: seq<RaceControl>
    /** The requests issued so far, in order. */
    ghost var trace: seq<Request>

    function Cache(): CacheState
      reads this
    {
      CacheState(raceControlCounter, lastRaceControlData)
    }

    constructor ()
      ensures Cache() == CacheState(0, [])
      ensures trace == []
    {
      raceControlCounter := 0;
      lastRaceControlData := [];
      trace := [];
    }

    /** `getLatestSession` in `year`, the year the clock reads. */
    method GetLatestSession(net: Upstream, year: int) returns (session: Option<Session>)
      modifies this`trace
      ensures session == LatestSession(net.sessions(year), net.sessions(year - 1))
      ensures trace == old(trace) + SessionRequests(year, net.sessions(year))
    {
      ghost var before := trace;
      trace := trace + [SessionsOfYear(year)];
      var current := MakeRequest(net.sessions(year));
      if current.Thrown? {
        assert !NeedsPreviousYear(net.sessions(year));
        return None;
      }
      var sessions := current.value;
      if sessions.Null? || |sessions.value| == 0 {
        assert NeedsPreviousYear(net.sessions(year));
        trace := trace + [SessionsOfYear(year - 1)];
        assert trace == before + SessionRequests(year, net.sessions(year));
        var previous := MakeRequest(net.sessions(year - 1));
        if previous.Thrown? {
          return None;
        }
        var older := previous.value;
        if older.Null? || |older.value| == 0 {
          return None;
        }
        return Some(older.value[|older.value| - 1]);
      }
      assert !NeedsPreviousYear(net.sessions(year));
      return Some(sessions.value[|sessions.value| - 1]);
    }

    method GetDrivers(net: Upstream, sessionKey: int) returns (drivers: seq<Driver>)
      modifies this`trace
      ensures drivers == FeedOrEmpty(net.drivers(sessionKey))
      ensures trace == old(trace) + [DriversOf(sessionKey)]
    {
      trace := trace + [DriversOf(sessionKey)];
      drivers := FeedOrEmpty(net.drivers(sessionKey));
    }

    method GetPositions(net: Upstream, sessionKey: int) returns (positions: seq<Position>)
      modifies this`trace
      ensures positions == FeedOrEmpty(net.positions(sessionKey))
      ensures trace == old(trace) + [PositionsOf(sessionKey)]
    {
      trace := trace + [PositionsOf(sessionKey)];
      positions := FeedOrEmpty(net.positions(sessionKey));
    }

    /** `getCarData`, whose `limit` defaults to 100 in the source. */
    method GetCarData(net: Upstream, sessionKey: int, limit: int) returns (carData: seq<CarData>)
      modifies this`trace
      ensures carData == FeedOrEmpty(net.carData(sessionKey, limit))
      ensures trace == old(trace) + [CarDataOf(sessionKey, limit)]
    {
      trace := trace + [CarDataOf(sessionKey, limit)];
      carData := FeedOrEmpty(net.carData(sessionKey, limit));
    }

    method GetTiming(net: Upstream, sessionKey: int) returns (timing: seq<Timing>)
      modifies this`trace
      ensures timing == FeedOrEmpty(net.laps(sessionKey))
      ensures trace == old(trace) + [LapsOf(sessionKey)]
    {
      trace := trace + [LapsOf(sessionKey)];
      timing := FeedOrEmpty(net.laps(sessionKey));
    }

    method GetIntervals(net: Upstream, sessionKey: int) returns (intervals: seq<Interval>)
      modifies this`trace
      ensures intervals == FeedOrEmpty(net.intervals(sessionKey))
      ensures trace == old(trace) + [IntervalsOf(sessionKey)]
    {
      trace := trace + [IntervalsOf(sessionKey)];
      intervals := FeedOrEmpty(net.intervals(sessionKey));
    }

    /** `getRaceControl`: counts the call, serves the cache or fetches, keeps
        the cache when the fetch fails, and returns the (new) cache. */
    method GetRaceControl(net: Upstream, sessionKey: int, forceRefresh: bool) returns (messages: seq<RaceControl>)
      modifies this
      ensures Cache() == CacheStep(old(Cache()), forceRefresh, net.raceControl(sessionKey))
      ensures messages == lastRaceControlData
      ensures trace == old(trace) + if ServedFromCache(old(Cache()), forceRefresh) then [] else [RaceControlOf(sessionKey)]
    {
      ghost var start := Cache();
      ghost var next := CacheStep(start, forceRefresh, net.raceControl(sessionKey));
      raceControlCounter := raceControlCounter + 1;
      if !forceRefresh && raceControlCounter % 3 != 0 && |lastRaceControlData| > 0 {
        assert ServedFromCache(start, forceRefresh);
        return lastRaceControlData;
      }
      assert !ServedFromCache(start, forceRefresh);
      trace := trace + [RaceControlOf(sessionKey)];
      var fetched := MakeRequest(net.raceControl(sessionKey));
      if fetched.Thrown? {
        assert next == CacheState(start.counter + 1, start.cache);
        return lastRaceControlData;
      }
      lastRaceControlData := if fetched.value.NonNull? then fetched.value.value else [];
      assert next == CacheState(start.counter + 1, lastRaceControlData);
      return lastRaceControlData;
    }

    /** `getBatchData`: resolves the session (again), then asks for drivers,
        positions, laps, intervals and race control in that order; car data is
        never requested and always empty. No error escapes. */
    method GetBatchData(net: Upstream, year: int, sessionKey: int) returns (data: Snapshot)
      modifies this
      ensures Cache() == CacheStep(old(Cache()), false, net.raceControl(sessionKey))
      ensures data == Snapshot(
        LatestSession(net.sessions(year), net.sessions(year - 1)),
        FeedOrEmpty(net.drivers(sessionKey)),
        FeedOrEmpty(net.positions(sessionKey)),
        [],
        FeedOrEmpty(net.laps(sessionKey)),
        FeedOrEmpty(net.intervals(sessionKey)),
        lastRaceControlData)
      ensures trace == old(trace) +
        BatchRequests(year, net.sessions(year), sessionKey, !ServedFromCache(old(Cache()), false))
    {
      ghost var before := trace;
      ghost var start := Cache();
      ghost var fetches := !ServedFromCache(start, false);
      var session := GetLatestSession(net, year);
      ghost var resolved := trace;
      var drivers := GetDrivers(net, sessionKey);
      var positions := GetPositions(net, sessionKey);
      var carData: seq<CarData> := [];
      var timing := GetTiming(net, sessionKey);
      var intervals := GetIntervals(net, sessionKey);
      ghost var feeds := [DriversOf(sessionKey), PositionsOf(sessionKey), LapsOf(sessionKey), IntervalsOf(sessionKey)];
      FeedTrace(resolved, feeds);
      assert Cache() == start;
      ghost var fed := trace;
      var raceControl := GetRaceControl(net, sessionKey, false);
      data := Snapshot(session, drivers, positions, carData, timing, intervals, raceControl);
      ghost var rc := if fetches then [RaceControlOf(sessionKey)] else [];
      assert trace == fed + rc;
      ghost var sessions := SessionRequests(year, net.sessions(year));
      assert BatchRequests(year, net.sessions(year), sessionKey, fetches) == sessions + feeds + rc;
      BatchTrace(before, sessions, feeds, rc);
    }

    /** `getCurrentSessionData`: an empty snapshot when no session resolves,
        otherwise the batch for the resolved session's key. The clock is read
        once by each session resolution: `year` is the first reading and
        `batchYear` the one `getBatchData` makes, so across New Year the
        snapshot's session can come from a different year's listing than the
        key it was fetched for. */
    method GetCurrentSessionData(net: Upstream, year: int, batchYear: int) returns (data: Snapshot)
      modifies this
      ensures var session := LatestSession(net.sessions(year), net.sessions(year - 1));
        if session.None? then
          && data == EmptySnapshot
          && Cache() == old(Cache())
          && trace == old(trace) + SessionRequests(year, net.sessions(year))
        else
          var key := session.value.sessionKey;
          && data == Snapshot(
               LatestSession(net.sessions(batchYear), net.sessions(batchYear - 1)),
               FeedOrEmpty(net.drivers(key)),
               FeedOrEmpty(net.positions(key)),
               [],
               FeedOrEmpty(net.laps(key)),
               FeedOrEmpty(net.intervals(key)),
               lastRaceControlData)
          && Cache() == CacheStep(old(Cache()), false, net.raceControl(key))
          && trace == old(trace) + SessionRequests(year, net.sessions(year))
               + BatchRequests(batchYear, net.sessions(batchYear), key, !ServedFromCache(old(Cache()), false))
      ensures batchYear == year ==> data.session == LatestSession(net.sessions(year), net.sessions(year - 1))
    {
      var session := GetLatestSession(net, year);
      if session.None? {
        return EmptySnapshot;
      }
      data := GetBatchData(net, batchYear, session.value.sessionKey);
    }
  }
}
