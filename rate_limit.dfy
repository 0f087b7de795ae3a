/** The rate-limit burst: RateLimitRequests sequential requests, classified by status. */
module RateLimit {
  import opened Probe

  /** The code recorded for one request: its status, or 0 when the request raised. */
  function CodeOf(o: Outcome): int
  {
    if o.Got? then o.resp.status else 0
  }

  /** The list of recorded codes, one per request, in request order. */
  function Codes(outcomes: seq<Outcome>): (codes: seq<int>)
    ensures |codes| == |outcomes|
    ensures forall i :: 0 <= i < |outcomes| ==> codes[i] == CodeOf(outcomes[i])
  {
    if outcomes == [] then [] else [CodeOf(outcomes[0])] + Codes(outcomes[1..])
  }

  /** Occurrences of `c` in `codes`, as Python's `list.count`. */
  function Count(codes: seq<int>, c: int): (n: nat)
    ensures n <= |codes|
  {
    if codes == [] then 0 else (if codes[0] == c then 1 else 0) + Count(codes[1..], c)
  }

  /** Number of requests that raised instead of returning a response. */
  function Failures(outcomes: seq<Outcome>): (n: nat)
    ensures n <= |outcomes|
  {
    if outcomes == [] then 0 else (if outcomes[0].Got? then 0 else 1) + Failures(outcomes[1..])
  }

  /** Number of responses whose status is `c`. */
  function Responses(outcomes: seq<Outcome>, c: int): (n: nat)
    ensures n <= |outcomes|
  {
    if outcomes == [] then 0
    else (if outcomes[0].Got? && outcomes[0].resp.status == c then 1 else 0) + Responses(outcomes[1..], c)
  }

  /** Two distinct codes are never counted for the same entry. */
  lemma {:induction false} CountDisjoint(codes: seq<int>, a: int, b: int)
    requires a != b
    ensures Count(codes, a) + Count(codes, b) <= |codes|
  {
    if codes != [] {
      CountDisjoint(codes[1..], a, b);
    }
  }

  /** The burst's classification: successes, limited responses and everything else. */
  datatype Tally = Tally(ok: int, limited: int, other: int)

  function TallyOf(codes: seq<int>): (t: Tally)
    ensures t.ok >= 0 && t.limited >= 0 && t.other >= 0
    ensures t.ok + t.limited + t.other == |codes|
    ensures t.ok == Count(codes, OkCode) && t.limited == Count(codes, RateLimitCode)
  {
    var ok := Count(codes, OkCode);
    var limited := Count(codes, RateLimitCode);
    CountDisjoint(codes, OkCode, RateLimitCode);
    Tally(ok, limited, |codes| - ok - limited)
  }

  /** The burst passes when allowed and limited responses both occur. */
  predicate Passes(t: Tally)
  {
    t.ok >= 1 && t.limited >= 1
  }

  /** The verdict of a burst whose requests yield `outcomes`. */
  predicate BurstPasses(outcomes: seq<Outcome>)
  {
    Passes(TallyOf(Codes(outcomes)))
  }

  /** For a status other than 0, the count of recorded codes is the count of real responses
      with that status: a request that raised is never counted as allowed or limited. */
  lemma {:induction false} CountIsResponses(outcomes: seq<Outcome>, c: int)
    requires c != 0
    ensures Count(Codes(outcomes), c) == Responses(outcomes, c)
  {
    if outcomes != [] {
      CountIsResponses(outcomes[1..], c);
      assert Codes(outcomes)[1..] == Codes(outcomes[1..]);
    }
  }

  lemma {:induction false} FailuresOutsideOkAndLimited(outcomes: seq<Outcome>)
    ensures Count(Codes(outcomes), OkCode) + Count(Codes(outcomes), RateLimitCode) + Failures(outcomes) <= |outcomes|
  {
    if outcomes != [] {
      FailuresOutsideOkAndLimited(outcomes[1..]);
      assert Codes(outcomes)[1..] == Codes(outcomes[1..]);
    }
  }

  /** Every request that raised lands in `other`. */
  lemma FailuresAreOther(outcomes: seq<Outcome>)
    ensures TallyOf(Codes(outcomes)).other >= Failures(outcomes)
  {
    FailuresOutsideOkAndLimited(outcomes);
  }

  /** A code is counted at least once exactly when it occurs. */
  lemma {:induction false} CountPositive(codes: seq<int>, c: int)
    ensures Count(codes, c) >= 1 <==> exists i :: 0 <= i < |codes| && codes[i] == c
  {
    if codes != [] {
      CountPositive(codes[1..], c);
      if codes[0] != c && Count(codes, c) >= 1 {
        var i :| 0 <= i < |codes[1..]| && codes[1..][i] == c;
        assert codes[i + 1] == c;
      }
    }
  }

  /** A response with the given status occurs among the outcomes. */
  ghost predicate Answered(outcomes: seq<Outcome>, c: int)
  {
    exists i :: 0 <= i < |outcomes| && outcomes[i].Got? && outcomes[i].resp.status == c
  }

  /** The burst passes iff at least one request got 200 and at least one got 429. */
  lemma BurstPassesIff(outcomes: seq<Outcome>)
    ensures BurstPasses(outcomes) <==> Answered(outcomes, OkCode) && Answered(outcomes, RateLimitCode)
  {
    var codes := Codes(outcomes);
    CountPositive(codes, OkCode);
    CountPositive(codes, RateLimitCode);
    if Answered(outcomes, OkCode) {
      var i :| 0 <= i < |outcomes| && outcomes[i].Got? && outcomes[i].resp.status == OkCode;
      assert codes[i] == OkCode;
    }
    if Answered(outcomes, RateLimitCode) {
      var i :| 0 <= i < |outcomes| && outcomes[i].Got? && outcomes[i].resp.status == RateLimitCode;
      assert codes[i] == RateLimitCode;
    }
    if BurstPasses(outcomes) {
      var i :| 0 <= i < |codes| && codes[i] == OkCode;
      assert outcomes[i].Got? && outcomes[i].resp.status == OkCode;
      var j :| 0 <= j < |codes| && codes[j] == RateLimitCode;
      assert outcomes[j].Got? && outcomes[j].resp.status == RateLimitCode;
    }
  }

  /** The `other` count only warns: two bursts with the same allowed and limited counts get
      the same verdict whatever else they contain. */
  lemma OtherOnlyWarns(os1: seq<Outcome>, os2: seq<Outcome>)
    requires TallyOf(Codes(os1)).ok == TallyOf(Codes(os2)).ok
    requires TallyOf(Codes(os1)).limited == TallyOf(Codes(os2)).limited
    ensures BurstPasses(os1) == BurstPasses(os2)
  {
  }

  /** What one burst yields: the codes list, the tally, the verdict, whether a warning about
      other codes is raised, and whether certificates were verified (not for HTTPS). */
  datatype Burst = Burst(codes: seq<int>, tally: Tally, passed: bool, warned: bool, verifySsl: bool)

  /** Sends the burst: request i yields `outcomes[i]`; no request exception stops it. */
  method ProbeRateLimit(scheme: string, outcomes: seq<Outcome>) returns (b: Burst)
    requires |outcomes| == RateLimitRequests
    ensures b.verifySsl <==> scheme != "https"
    ensures |b.codes| == RateLimitRequests
    ensures b.codes == Codes(outcomes)
    ensures b.tally == TallyOf(b.codes)
    ensures b.passed <==> b.tally.ok >= 1 && b.tally.limited >= 1
    ensures b.passed == BurstPasses(outcomes)
    ensures b.warned <==> b.tally.other > 0
  {
    var verifySsl := scheme != "https";
    var codes: seq<int> := [];
    for i := 0 to RateLimitRequests
      invariant |codes| == i
      invariant forall k :: 0 <= k < i ==> codes[k] == CodeOf(outcomes[k])
    {
      match outcomes[i]
      case Got(resp) =>
        codes := codes + [resp.status];
      case _ =>
        codes := codes + [0];
    }
    var ok := Count(codes, OkCode);
    var limited := Count(codes, RateLimitCode);
    var other := |codes| - ok - limited;
    var passed := true;
    if ok == 0 {
      passed := false;
    }
    if limited == 0 {
      passed := false;
    }
    b := Burst(codes, Tally(ok, limited, other), passed, other > 0, verifySsl);
  }
}
