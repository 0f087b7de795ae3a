# Nginx integration-test harness, modelled in Dafny

The repository's integration test (`tests/test_nginx.py`) checks a running nginx in a fixed order:

1. It waits until nginx accepts connections.
2. It checks three server blocks: custom HTML on port 8080, a 403 on port 8081, and the same HTML over HTTPS on port 8443.
3. It sends two bursts of rapid requests (HTTP on 8080, HTTPS on 8443) and checks that rate limiting produces 429 responses.
4. It exits with status 0 only if every recorded result passed.

This project models the decision logic under that harness. The network is replaced by its answers. Each `requests.get` call becomes a `Probe.Outcome`: either a response (status code and text), a `ConnectionError`, or another `RequestException` (`RequestError`). The methods take these outcomes as their inputs.

- `probe.dfy`: configuration constants (ports, retry budget 10, expected 403, expected content `Hello from Nginx!`, burst size 20, limited status 429, snippet length 200) and the outcome types.
- `endpoint.dfy`: the three single-response probes as pure functions. `Contains` is Python's substring test and `Snippet` is `text[:200]`. The HTTPS probe decides exactly like the custom-HTML probe, so one function `CheckHtml` serves both.
- `readiness.dfy`: the readiness loop, as a method with a bounded `for` loop and early return. It counts the requests made and the 2-second sleeps taken.
- `rate_limit.dfy`: the burst, as a method that builds the `codes` list in a loop. Around it are the counting functions and lemmas about them.
- `runner.dfy`: `main`. It runs readiness, then five results recorded in fixed order, then the `all_passed` fold loop, and returns the exit code as a value.

How the inputs are shaped:
- The readiness input holds exactly `MaxRetries` outcomes: what each attempt would get. The loop reads only the prefix it actually requests.
- Each burst input holds exactly `RateLimitRequests` outcomes, one per request the source sends.

An exception that the source lets propagate ends the run as `Runner.Crashed` with exit status 1, which is what the Python interpreter returns for an uncaught exception. Two cases do this: a non-connection error while waiting, and any request error in an endpoint probe.

Two modelling choices follow the source's own behaviour:
- A result records only the (name, passed) pair the summary loop reads (`Runner.Result`). `Endpoint.Check` also carries the printed status mismatch or body snippet.
- A transport error in an endpoint probe aborts the run (`Crashed`) and is not recorded as a failure.

## Model

| member | source | states |
|---|---|---|
| `Endpoint.Contains` | tests/test_nginx.py:67 | the substring test is true iff the needle occurs at some index of the text |
| `Endpoint.Snippet` | tests/test_nginx.py:69 | the snippet is a prefix of the body, of length min(len(body), 200) |
| `Endpoint.CheckHtml` | tests/test_nginx.py:62-73 | passes iff status is 200 and the body contains the expected content; a non-200 status fails as a status mismatch whatever the body; a 200 response without the content fails as missing content carrying the 200-character snippet |
| `Endpoint.CheckError` | tests/test_nginx.py:83-88 | passes iff the status equals 403; otherwise a status mismatch naming 403 and the status received |
| `Endpoint.HtmlStatusFirst` | tests/test_nginx.py:62-64 | for a non-200 status the HTML verdict does not depend on the body and is a failure |
| `Endpoint.ErrorIgnoresBody` | tests/test_nginx.py:81-88 | the error-response verdict does not depend on the body |
| `Endpoint.HtmlPassesOnEmbeddedContent` | tests/test_nginx.py:99-110 | a 200 response whose body embeds the expected content anywhere passes the HTML probe, as the HTTPS probe requires |
| `Readiness.WaitForNginx` | tests/test_nginx.py:38-52 | ready iff some attempt gets a response after only connection errors; timed out iff all 10 attempts are connection errors, after 10 requests and 10 sleeps; otherwise it stops at attempt k in 1..10, after k requests and k-1 sleeps, with a response (ready) or a propagated error; ready at attempt 1 with no sleep if the first attempt answers |
| `RateLimit.Codes` | tests/test_nginx.py:122-129 | one code per request in request order: the status of a response, 0 for a request that raised |
| `RateLimit.Count` | tests/test_nginx.py:131-132 | an occurrence count never exceeds the list's length |
| `RateLimit.CountDisjoint` | tests/test_nginx.py:131-133 | counts of two distinct codes add up to at most the list's length |
| `RateLimit.TallyOf` | tests/test_nginx.py:131-133 | ok, limited and other are all non-negative and sum to the number of codes |
| `RateLimit.CountIsResponses` | tests/test_nginx.py:124-132 | for any nonzero status, the recorded count equals the number of real responses with that status, so a failed request is never counted as 200 or 429 |
| `RateLimit.FailuresOutsideOkAndLimited` | tests/test_nginx.py:124-133 | 200s, 429s and failed requests together never exceed the number of requests |
| `RateLimit.FailuresAreOther` | tests/test_nginx.py:127-133 | `other` is at least the number of requests that raised |
| `RateLimit.CountPositive` | tests/test_nginx.py:138-148 | a count is at least 1 iff the code occurs in the list |
| `RateLimit.BurstPassesIff` | tests/test_nginx.py:137-153 | the burst passes iff some request got 200 and some request got 429 |
| `RateLimit.OtherOnlyWarns` | tests/test_nginx.py:150-153 | bursts with equal ok and limited counts get the same verdict whatever their `other` count |
| `RateLimit.ProbeRateLimit` | tests/test_nginx.py:113-153 | exactly 20 codes are recorded, equal to the per-request codes; the tally is computed from those codes; passes iff ok >= 1 and limited >= 1; warns iff other > 0; verifies certificates iff the scheme is not https |
| `Runner.AllPassed` | tests/test_nginx.py:188-193 | the fold is true iff every recorded result passed |
| `Runner.RunSuite` | tests/test_nginx.py:156-200 | not-ready iff all readiness attempts are connection errors, with exit code 1 and no results; five results are recorded, in fixed order and each from its own probe, iff readiness succeeded and the three endpoint requests got responses; the exit code is 0 or 1, and 0 iff the run finished and every result passed |

## Left out

- HTTP and HTTPS transport (`requests.get`, TLS handshakes, timeouts): these are replaced by the `Outcome` inputs. `verify=False` is kept only as the `verifySsl` flag of a burst, because the transport is abstract.
- Exceptions outside `requests.exceptions.RequestException`: an outcome has no such case.
- `time.sleep` durations: the 2-second retry delay and the two 3-second cooldowns are wall-clock behaviour. Readiness sleeps are counted; the cooldowns have no observable effect on the model's verdicts and are omitted.
- `urllib3.disable_warnings` and console output: printing is not modelled, except for the 200-character snippet bound.
- `sys.exit`: modelled as a returned exit code.
- Whether the forbidden port shares the rate-limit zone: the code never exercises or asserts this.
