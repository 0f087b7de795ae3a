/** The three single-request endpoint probes: each is one decision over one response. */
module Endpoint {
  import opened Probe

  /** Why a probe failed, or that it passed. */
  datatype Check =
    | Pass
      /** The status code differed from the expected one. */
    | WrongStatus(expected: int, got: int)
      /** The status was right but the expected content was absent; `snippet` is what is shown of the body. */
    | MissingContent(snippet: string)

  /** `needle` occurs in `text` starting at index `i`. */
  predicate OccursAt(text: string, needle: string, i: nat)
  {
    i + |needle| <= |text| && text[i..i + |needle|] == needle
  }

  /** Substring test, as Python's `needle in text`. */
  function Contains(text: string, needle: string): (r: bool)
    ensures r <==> exists i: nat :: OccursAt(text, needle, i)
    decreases |text|
  {
    if needle <= text then
      assert OccursAt(text, needle, 0);
      true
    else if |text| == 0 then
      false
    else
      var r := Contains(text[1..], needle);
      if r then
        var i: nat :| OccursAt(text[1..], needle, i);
        assert text[1..][i..i + |needle|] == text[i + 1..i + 1 + |needle|];
        assert OccursAt(text, needle, i + 1);
        true
      else
        assert forall i: nat {:trigger OccursAt(text, needle, i)} :: OccursAt(text, needle, i) ==> i > 0 && OccursAt(text[1..], needle, i - 1) by {
          forall i: nat | OccursAt(text, needle, i)
            ensures i > 0 && OccursAt(text[1..], needle, i - 1)
          {
            assert text[1..][i - 1..i - 1 + |needle|] == text[i..i + |needle|];
          }
        }
        false
  }

  /** The diagnostic excerpt of a body: its first SnippetLength characters, as `text[:200]`. */
  function Snippet(text: string): (s: string)
    ensures s <= text
    ensures |s| == if |text| <= SnippetLength then |text| else SnippetLength
  {
    if |text| <= SnippetLength then text else text[..SnippetLength]
  }

  /** Custom HTML probe (port 8080), and the HTTPS probe (port 8443), which decides the same way. */
  function CheckHtml(resp: Response): (r: Check)
    ensures r.Pass? <==> resp.status == OkCode && Contains(resp.text, ExpectedContent)
    ensures resp.status != OkCode ==> r == WrongStatus(OkCode, resp.status)
    ensures resp.status == OkCode && !Contains(resp.text, ExpectedContent) ==> r == MissingContent(Snippet(resp.text))
    ensures r.MissingContent? ==> resp.status == OkCode && r.snippet == Snippet(resp.text) && |r.snippet| <= SnippetLength
  {
    if resp.status != OkCode then WrongStatus(OkCode, resp.status)
    else if !Contains(resp.text, ExpectedContent) then MissingContent(Snippet(resp.text))
    else Pass
  }

  /** Error-response probe (port 8081): only the status is examined. */
  function CheckError(resp: Response): (r: Check)
    ensures r.Pass? <==> resp.status == ExpectedErrorCode
    ensures !r.Pass? ==> r == WrongStatus(ExpectedErrorCode, resp.status)
  {
    if resp.status != ExpectedErrorCode then WrongStatus(ExpectedErrorCode, resp.status) else Pass
  }

  /** A non-200 response fails the HTML probe whatever its body. */
  lemma HtmlStatusFirst(status: int, text1: string, text2: string)
    requires status != OkCode
    ensures CheckHtml(Response(status, text1)) == CheckHtml(Response(status, text2))
    ensures !CheckHtml(Response(status, text1)).Pass?
  {
  }

  /** The error-response verdict does not depend on the body. */
  lemma ErrorIgnoresBody(status: int, text1: string, text2: string)
    ensures CheckError(Response(status, text1)) == CheckError(Response(status, text2))
  {
  }

  /** A 200 response whose body embeds the expected content passes the HTML probe. */
  lemma {:induction false} HtmlPassesOnEmbeddedContent(prefix: string, suffix: string)
    ensures CheckHtml(Response(OkCode, prefix + ExpectedContent + suffix)).Pass?
  {
    var text := prefix + ExpectedContent + suffix;
    assert text[|prefix|..|prefix| + |ExpectedContent|] == ExpectedContent;
    assert OccursAt(text, ExpectedContent, |prefix|);
  }
}
