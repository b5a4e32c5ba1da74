/** The broken-link checker subscriber of the search crawler: a record of two
    counters and a log trace, threaded through the crawl engine's callbacks.
    The engine is reduced to what the subscriber reads from it: the hosts of
    the base URI collection and the registry of discovered URIs. */
module BrokenLinkChecker {
  import opened Wrappers

  /** A subscriber's vote on whether the engine should act. */
  datatype Decision = Positive | Negative | Abstain

  /** The `stats` array: links checked successfully and broken links. */
  datatype Stats = Stats(ok: nat, error: nat)

  /** A discovered URI: its absolute address, its host and the address of
      the page it was found on (none for a seed). */
  datatype CrawlUri = CrawlUri(uri: string, host: string, foundOn: Option<string>)

  /** The slice of the crawl engine the subscriber reads. */
  datatype Engine = Engine(baseHosts: set<string>, crawlUris: map<string, CrawlUri>) {

    /** `getBaseUris()->containsHost($host)`. */
    predicate ContainsHost(host: string) {
      host in baseHosts
    }

    /** `getCrawlUri($uri)`: the registry entry for an address, if any. */
    function GetCrawlUri(uri: string): Option<CrawlUri> {
      if uri in crawlUris then Some(crawlUris[uri]) else None
    }
  }

  datatype LogLevel = Debug | Error

  /** Why a log line was written; the message text itself is not modelled. */
  datatype Reason = OutOfScope | HttpStatus(code: int) | RequestFailed(message: string)

  datatype LogEntry = LogEntry(level: LogLevel, uri: string, reason: Reason)

  /** The subscriber's state: its counters and what it has logged so far. */
  datatype Subscriber = Subscriber(stats: Stats, log: seq<LogEntry>)

  /** A decision together with the state after the callback. */
  datatype Answer = Answer(decision: Decision, state: Subscriber)

  /** The families of HTTP client exceptions the subscriber distinguishes. */
  datatype ExceptionKind = TransportException | HttpException | OtherException

  datatype Exception = Exception(kind: ExceptionKind, message: string)

  /** What `$chunk->isLast()` does: answer, or throw a transport exception. */
  datatype ChunkProbe = IsLast(last: bool) | ChunkFails(message: string)

  /** What `$response->getStatusCode()` does: answer, or throw a transport
      exception. */
  datatype StatusProbe = Status(code: int) | StatusFails(message: string)

  /** The outcome reported by `getResult`: the `ok` flag and the `stats`
      info entry. The summary sentence is not modelled. */
  datatype SubscriberResult = SubscriberResult(ok: bool, stats: Stats)

  /** `getName()`. */
  const Name: string := "broken-link-checker"

  /** The state of a newly constructed subscriber. */
  function Fresh(): (s: Subscriber)
    ensures s.stats.ok == 0 && s.stats.error == 0
    ensures s.log == []
  {
    Subscriber(Stats(0, 0), [])
  }

  /** `logError`: one more broken link, and an error line in the log. */
  function LogError(s: Subscriber, crawlUri: CrawlUri, reason: Reason): (t: Subscriber)
    ensures t.stats == Stats(s.stats.ok, s.stats.error + 1)
    ensures t.log == s.log + [LogEntry(Error, crawlUri.uri, reason)]
  {
    Subscriber(s.stats.(error := s.stats.error + 1), s.log + [LogEntry(Error, crawlUri.uri, reason)])
  }

  /** `shouldRequest`: request URIs on a base host, or found on a page that
      is registered and on a base host; skip (with a debug line) all others. */
  function ShouldRequest(engine: Engine, s: Subscriber, crawlUri: CrawlUri): (a: Answer)
    ensures a.decision == Positive <==>
      (crawlUri.host in engine.baseHosts
       || exists f :: crawlUri.foundOn == Some(f) && f in engine.crawlUris
                      && engine.crawlUris[f].host in engine.baseHosts)
    ensures a.decision != Abstain
    ensures a.state.stats == s.stats
    ensures a.decision == Positive ==> a.state.log == s.log
    ensures a.decision == Negative ==> a.state.log == s.log + [LogEntry(Debug, crawlUri.uri, OutOfScope)]
  {
    var fromBaseUriCollection := engine.ContainsHost(crawlUri.host);
    var foundOnBaseUriCollection :=
      match crawlUri.foundOn
      case None => false
      case Some(f) =>
        match engine.GetCrawlUri(f)
        case None => false
        case Some(original) => engine.ContainsHost(original.host);
    if !fromBaseUriCollection && !foundOnBaseUriCollection then
      Answer(Negative, s.(log := s.log + [LogEntry(Debug, crawlUri.uri, OutOfScope)]))
    else
      Answer(Positive, s)
  }

  /** `needsContent`: the status code alone decides; 200 to 399 is a working
      link, anything else a broken one. The body is never needed. */
  function NeedsContent(s: Subscriber, crawlUri: CrawlUri, status: int): (a: Answer)
    ensures a.decision == Negative
    ensures 200 <= status <= 399 ==>
      a.state.stats == Stats(s.stats.ok + 1, s.stats.error) && a.state.log == s.log
    ensures !(200 <= status <= 399) ==>
      a.state.stats == Stats(s.stats.ok, s.stats.error + 1)
      && a.state.log == s.log + [LogEntry(Error, crawlUri.uri, HttpStatus(status))]
  {
    if status < 200 || status >= 400 then
      Answer(Negative, LogError(s, crawlUri, HttpStatus(status)))
    else
      Answer(Negative, s.(stats := s.stats.(ok := s.stats.ok + 1)))
  }

  /** `onLastChunk`: the subscriber never asked for content, so nothing to do. */
  function OnLastChunk(s: Subscriber, crawlUri: CrawlUri): (t: Subscriber)
    ensures t.stats == s.stats && t.log == s.log
  {
    s
  }

  /** `onException`. Transport failures, and failures while asking the chunk
      or the response, count as broken at once. An HTTP exception raised on a
      chunk that is not the last one is ignored, so that a failing response
      is counted once, on its last chunk. Everything else counts once. */
  function OnException(s: Subscriber, crawlUri: CrawlUri, exception: Exception,
                       chunk: Option<ChunkProbe>, status: StatusProbe): (t: Subscriber)
    ensures t.stats.ok == s.stats.ok
    ensures t.stats.error == s.stats.error || t.stats.error == s.stats.error + 1
    ensures t.stats.error == s.stats.error <==>
      exception.kind == HttpException && chunk == Some(IsLast(false)) && status.Status?
    ensures t.stats.error == s.stats.error ==> t.log == s.log
    ensures t.stats.error != s.stats.error ==>
      |t.log| == |s.log| + 1 && t.log[..|s.log|] == s.log && t.log[|s.log|].level == Error && t.log[|s.log|].uri == crawlUri.uri
    ensures exception.kind == TransportException ==>
      t.log == s.log + [LogEntry(Error, crawlUri.uri, RequestFailed(exception.message))]
  {
    if exception.kind == TransportException then
      LogError(s, crawlUri, RequestFailed(exception.message))
    else
      match chunk
      case Some(ChunkFails(m)) => LogError(s, crawlUri, RequestFailed(m))
      case _ =>
        var isLastChunk := match chunk case Some(IsLast(b)) => b case _ => false;
        match status
        case StatusFails(m) => LogError(s, crawlUri, RequestFailed(m))
        case Status(code) =>
          if exception.kind == HttpException && chunk.Some? && !isLastChunk then s
          else LogError(s, crawlUri, HttpStatus(code))
  }

  /** `getResult`: the current counters, plus the previous run's when the
      crawl is resumed; the run is ok iff no link was broken. */
  function GetResult(s: Subscriber, previous: Option<SubscriberResult>): (r: SubscriberResult)
    ensures previous.None? ==> r.stats == s.stats
    ensures previous.Some? ==>
      r.stats == Stats(s.stats.ok + previous.value.stats.ok, s.stats.error + previous.value.stats.error)
    ensures r.ok <==> r.stats.error == 0
  {
    var stats :=
      match previous
      case None => s.stats
      case Some(p) => Stats(s.stats.ok + p.stats.ok, s.stats.error + p.stats.error);
    SubscriberResult(stats.error == 0, stats)
  }

  /** One callback the engine makes on the subscriber. The engine changes as
      the crawl goes on, so a `shouldRequest` call carries the engine's state
      at the moment it is made. */
  datatype Callback =
    | ShouldRequestCall(engine: Engine, crawlUri: CrawlUri)
    | NeedsContentCall(crawlUri: CrawlUri, status: int)
    | LastChunkCall(crawlUri: CrawlUri)
    | ExceptionCall(crawlUri: CrawlUri, exception: Exception, chunk: Option<ChunkProbe>, statusProbe: StatusProbe)

  function Apply(s: Subscriber, cb: Callback): Subscriber {
    match cb
    case ShouldRequestCall(engine, u) => ShouldRequest(engine, s, u).state
    case NeedsContentCall(u, code) => NeedsContent(s, u, code).state
    case LastChunkCall(u) => OnLastChunk(s, u)
    case ExceptionCall(u, e, c, p) => OnException(s, u, e, c, p)
  }

  /** The state after a sequence of callbacks, in order. */
  function Run(s: Subscriber, cbs: seq<Callback>): Subscriber
    decreases |cbs|
  {
    if |cbs| == 0 then s else Run(Apply(s, cbs[0]), cbs[1..])
  }

  /** Every callback leaves both counters at least where they were, and only
      appends to the log. */
  lemma ApplyMonotone(s: Subscriber, cb: Callback)
    ensures Apply(s, cb).stats.ok >= s.stats.ok
    ensures Apply(s, cb).stats.error >= s.stats.error
    ensures s.log <= Apply(s, cb).log
  {
  }

  /** Across any run of callbacks the counters never decrease and the log
      only grows. */
  lemma {:induction false} RunMonotone(s: Subscriber, cbs: seq<Callback>)
    ensures Run(s, cbs).stats.ok >= s.stats.ok
    ensures Run(s, cbs).stats.error >= s.stats.error
    ensures s.log <= Run(s, cbs).log
    decreases |cbs|
  {
    if |cbs| > 0 {
      ApplyMonotone(s, cbs[0]);
      RunMonotone(Apply(s, cbs[0]), cbs[1..]);
    }
  }

  /** The error-level lines of a log. */
  function ErrorLines(log: seq<LogEntry>): (n: nat)
    ensures n <= |log|
  {
    if |log| == 0 then 0
    else ErrorLines(log[..|log| - 1]) + (if log[|log| - 1].level == Error then 1 else 0)
  }

  /** Each broken link is logged exactly once: the error counter moves in
      step with the number of error lines in the log. */
  ghost predicate ErrorsLogged(s: Subscriber) {
    s.stats.error == ErrorLines(s.log)
  }

  lemma ApplyKeepsErrorsLogged(s: Subscriber, cb: Callback)
    requires ErrorsLogged(s)
    ensures ErrorsLogged(Apply(s, cb))
  {
    var t := Apply(s, cb);
    match cb
    case ShouldRequestCall(engine, u) =>
      var a := ShouldRequest(engine, s, u);
      if a.decision == Negative {
        LogOneLine(s, t, LogEntry(Debug, u.uri, OutOfScope));
      }
    case NeedsContentCall(u, code) =>
      if !(200 <= code <= 399) {
        LogOneLine(s, t, LogEntry(Error, u.uri, HttpStatus(code)));
      }
    case LastChunkCall(u) =>
    case ExceptionCall(u, e, c, p) =>
      if t.stats.error != s.stats.error {
        LogOneLine(s, t, t.log[|s.log|]);
      }
  }

  /** One more log line keeps the counter in step when it is an error line
      exactly when the counter moves by one. */
  lemma LogOneLine(s: Subscriber, t: Subscriber, line: LogEntry)
    requires ErrorsLogged(s)
    requires t.log == s.log + [line]
    requires t.stats.error == s.stats.error + (if line.level == Error then 1 else 0)
    ensures ErrorsLogged(t)
  {
    assert t.log[..|t.log| - 1] == s.log;
  }


  /** From a fresh subscriber, after any run, the error counter equals the
      number of error lines logged. */
  lemma {:induction false} RunKeepsErrorsLogged(s: Subscriber, cbs: seq<Callback>)
    requires ErrorsLogged(s)
    ensures ErrorsLogged(Run(s, cbs))
    decreases |cbs|
  {
    if |cbs| > 0 {
      ApplyKeepsErrorsLogged(s, cbs[0]);
      RunKeepsErrorsLogged(Apply(s, cbs[0]), cbs[1..]);
    }
  }

  lemma FreshErrorsLogged()
    ensures ErrorsLogged(Fresh())
  {
  }

  /** `n` HTTP-exception callbacks on non-last chunks of one response,
      followed by one on its last chunk. */
  function HttpFailureCallbacks(u: CrawlUri, e: Exception, code: int, n: nat): (cbs: seq<Callback>)
    requires e.kind == HttpException
    ensures |cbs| == n + 1
  {
    seq(n, _ => ExceptionCall(u, e, Some(IsLast(false)), Status(code)))
    + [ExceptionCall(u, e, Some(IsLast(true)), Status(code))]
  }

  lemma {:induction false} NonLastChunksIgnored(s: Subscriber, u: CrawlUri, e: Exception, code: int, n: nat)
    requires e.kind == HttpException
    ensures Run(s, seq(n, _ => ExceptionCall(u, e, Some(IsLast(false)), Status(code)))) == s
    decreases n
  {
    var cbs := seq(n, _ => ExceptionCall(u, e, Some(IsLast(false)), Status(code)));
    if n > 0 {
      assert cbs[1..] == seq(n - 1, _ => ExceptionCall(u, e, Some(IsLast(false)), Status(code)));
      NonLastChunksIgnored(s, u, e, code, n - 1);
    }
  }

  lemma {:induction false} RunAppend(s: Subscriber, a: seq<Callback>, b: seq<Callback>)
    ensures Run(s, a + b) == Run(Run(s, a), b)
    decreases |a|
  {
    if |a| > 0 {
      assert (a + b)[1..] == a[1..] + b;
      RunAppend(Apply(s, a[0]), a[1..], b);
    } else {
      assert a + b == b;
    }
  }

  /** However many chunks an HTTP error surfaces on, the link is counted
      broken once and logged once. */
  lemma HttpFailureCountedOnce(s: Subscriber, u: CrawlUri, e: Exception, code: int, n: nat)
    requires e.kind == HttpException
    ensures Run(s, HttpFailureCallbacks(u, e, code, n)).stats == Stats(s.stats.ok, s.stats.error + 1)
    ensures Run(s, HttpFailureCallbacks(u, e, code, n)).log
         == s.log + [LogEntry(Error, u.uri, HttpStatus(code))]
  {
    var prefix := seq(n, _ => ExceptionCall(u, e, Some(IsLast(false)), Status(code)));
    var last := [ExceptionCall(u, e, Some(IsLast(true)), Status(code))];
    RunAppend(s, prefix, last);
    NonLastChunksIgnored(s, u, e, code, n);
  }

  /** The counters a run adds do not depend on the counters it starts from. */
  lemma {:induction false} RunShift(s: Subscriber, cbs: seq<Callback>)
    ensures Run(s, cbs).stats.ok == s.stats.ok + Run(Fresh(), cbs).stats.ok
    ensures Run(s, cbs).stats.error == s.stats.error + Run(Fresh(), cbs).stats.error
    decreases |cbs|
  {
    if |cbs| > 0 {
      var s1 := Apply(s, cbs[0]);
      var f1 := Apply(Fresh(), cbs[0]);
      assert s1.stats.ok == s.stats.ok + f1.stats.ok;
      assert s1.stats.error == s.stats.error + f1.stats.error;
      RunShift(s1, cbs[1..]);
      RunShift(f1, cbs[1..]);
    }
  }

  /** Resuming a crawl and folding in the first run's result reports the
      same totals as one uninterrupted run over both parts. */
  lemma ResumedTotals(first: seq<Callback>, second: seq<Callback>)
    ensures GetResult(Run(Fresh(), second), Some(GetResult(Run(Fresh(), first), None)))
         == GetResult(Run(Fresh(), first + second), None)
  {
    RunAppend(Fresh(), first, second);
    RunShift(Run(Fresh(), first), second);
  }

  /** The cumulative merge of a resumed run: 3 good and 1 broken before,
      2 good now, 5 good and 1 broken in all, and the result is not ok. */
  lemma MergeExample(s: Subscriber)
    requires s.stats == Stats(2, 0)
    ensures GetResult(s, Some(SubscriberResult(false, Stats(3, 1)))) == SubscriberResult(false, Stats(5, 1))
  {
  }
}
