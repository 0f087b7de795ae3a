/** The readiness retry loop run before any probe. */
module Readiness {
  import opened Probe

  /** How the wait ended: ready at some attempt, out of attempts, or an exception
      other than a connection error propagated out of the given attempt. */
  datatype Verdict = Ready(attempt: nat) | TimedOut | Raised(attempt: nat)

  /** Some attempt within the budget gets a response, and every earlier one was a connection error. */
  ghost predicate BecomesReady(attempts: seq<Outcome>)
  {
    exists k :: 0 <= k < |attempts| && attempts[k].Got? &&
      forall j :: 0 <= j < k ==> attempts[j].ConnectionError?
  }

  /** Every attempt within the budget is a connection error. */
  ghost predicate NeverConnects(attempts: seq<Outcome>)
  {
    forall j :: 0 <= j < |attempts| ==> attempts[j].ConnectionError?
  }

  /** Polls until an attempt does not raise a connection error. `attempts[k]` is what
      attempt k + 1 would yield; `requests` counts the requests made and `sleeps` the
      retry delays taken (one after every connection error, the last one included). */
  method WaitForNginx(attempts: seq<Outcome>) returns (v: Verdict, requests: nat, sleeps: nat)
    requires |attempts| == MaxRetries
    ensures v.Ready? <==> BecomesReady(attempts)
    ensures v.TimedOut? <==> NeverConnects(attempts)
    ensures !v.TimedOut? ==>
      1 <= v.attempt <= MaxRetries &&
      (forall j :: 0 <= j < v.attempt - 1 ==> attempts[j].ConnectionError?) &&
      requests == v.attempt && sleeps == v.attempt - 1
    ensures v.Ready? ==> attempts[v.attempt - 1].Got?
    ensures v.Raised? ==> attempts[v.attempt - 1].RequestError?
    ensures v.TimedOut? ==> requests == MaxRetries && sleeps == MaxRetries
    ensures attempts[0].Got? ==> v == Ready(1) && sleeps == 0
  {
    requests, sleeps := 0, 0;
    for attempt := 1 to MaxRetries + 1
      invariant requests == attempt - 1 && sleeps == attempt - 1
      invariant forall j :: 0 <= j < attempt - 1 ==> attempts[j].ConnectionError?
    {
      requests := requests + 1;
      match attempts[attempt - 1]
      case Got(_) =>
        v := Ready(attempt);
        return;
      case RequestError =>
        v := Raised(attempt);
        return;
      case ConnectionError =>
        sleeps := sleeps + 1;
    }
    v := TimedOut;
  }
}
