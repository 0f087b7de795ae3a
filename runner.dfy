/** The test run: readiness first, then five recorded results and the summary fold. */
module Runner {
  import opened Probe
  import opened Endpoint
  import opened Readiness
  import opened RateLimit

  /** One recorded result: the test's name and whether it passed. */
  datatype Result = Result(name: string, passed: bool)

  /** How a run ends: nginx never became reachable, an exception propagated out of a
      probe (the process dies with status 1), or all five results were recorded. */
  datatype Run = NotReady | Crashed | Finished(results: seq<Result>)

  const SuiteNames: seq<string> := [
    "Custom HTML (port 8080)",
    "Error Response (port 8081)",
    "HTTPS Custom HTML (port 8443)",
    "Rate Limiting HTTP (port 8080)",
    "Rate Limiting HTTPS (port 8443)"
  ]

  /** The summary fold: true iff every recorded result passed. */
  method AllPassed(results: seq<Result>) returns (allPassed: bool)
    ensures allPassed <==> forall i :: 0 <= i < |results| ==> results[i].passed
  {
    allPassed := true;
    for i := 0 to |results|
      invariant allPassed <==> forall k :: 0 <= k < i ==> results[k].passed
    {
      if !results[i].passed {
        allPassed := false;
      }
    }
  }

  /** The whole run. Each argument is what the corresponding requests yield: the readiness
      attempts, the three endpoint probes, and the HTTP and HTTPS bursts. */
  method RunSuite(ready: seq<Outcome>, html: Outcome, error: Outcome, https: Outcome,
                  burstHttp: seq<Outcome>, burstHttps: seq<Outcome>)
    returns (run: Run, exitCode: int)
    requires |ready| == MaxRetries
    requires |burstHttp| == RateLimitRequests && |burstHttps| == RateLimitRequests
    ensures run.NotReady? <==> NeverConnects(ready)
    ensures run.Finished? <==> BecomesReady(ready) && html.Got? && error.Got? && https.Got?
    ensures run.Finished? ==> run.results == [
      Result(SuiteNames[0], CheckHtml(html.resp).Pass?),
      Result(SuiteNames[1], CheckError(error.resp).Pass?),
      Result(SuiteNames[2], CheckHtml(https.resp).Pass?),
      Result(SuiteNames[3], BurstPasses(burstHttp)),
      Result(SuiteNames[4], BurstPasses(burstHttps))]
    ensures exitCode == 0 || exitCode == 1
    ensures exitCode == 0 <==> run.Finished? && forall i :: 0 <= i < |run.results| ==> run.results[i].passed
  {
    var verdict, _, _ := WaitForNginx(ready);
    if verdict.TimedOut? {
      return NotReady, 1;
    }
    if verdict.Raised? {
      return Crashed, 1;
    }
    var results: seq<Result> := [];
    if !html.Got? {
      return Crashed, 1;
    }
    results := results + [Result(SuiteNames[0], CheckHtml(html.resp).Pass?)];
    if !error.Got? {
      return Crashed, 1;
    }
    results := results + [Result(SuiteNames[1], CheckError(error.resp).Pass?)];
    if !https.Got? {
      return Crashed, 1;
    }
    results := results + [Result(SuiteNames[2], CheckHtml(https.resp).Pass?)];
    var burst := ProbeRateLimit("http", burstHttp);
    results := results + [Result(SuiteNames[3], burst.passed)];
    burst := ProbeRateLimit("https", burstHttps);
    results := results + [Result(SuiteNames[4], burst.passed)];
    var allPassed := AllPassed(results);
    run := Finished(results);
    exitCode := if allPassed then 0 else 1;
  }
}
