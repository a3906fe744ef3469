/**
 * The backend addresses the two front-end screens call. The delete request
 * of the word list is written as a single-quoted literal, so its
 * `${BACKEND_URL` is never substituted.
 */
module Endpoints {

  /** `${BACKEND_URL}/words`, used by both screens to load the saved words. */
  function WordsUrl(backendUrl: string): (url: string)
    ensures |url| == |backendUrl| + 6
    ensures url[..|backendUrl|] == backendUrl && url[|backendUrl|..] == "/words"
  {
    backendUrl + "/words"
  }

  /** The delete address as the word list builds it: the same text whatever the backend is. */
  function DeleteWordUrlAsWritten(backendUrl: string): (url: string)
    ensures |url| == 25
    ensures url[..13] == "${BACKEND_URL" && url[13..] == "/delete_word"
    ensures backendUrl == "" || backendUrl[0] != '$' ==> url != DeleteWordUrl(backendUrl)
  {
    "${BACKEND_URL/delete_word"
  }

  /** The delete address evidently intended: the backend address followed by the route. */
  function DeleteWordUrl(backendUrl: string): (url: string)
    ensures |url| == |backendUrl| + 12
    ensures url[..|backendUrl|] == backendUrl && url[|backendUrl|..] == "/delete_word"
  {
    backendUrl + "/delete_word"
  }

  /** As written, the configured backend address has no influence on where the delete goes. */
  lemma DeleteUrlAsWrittenIgnoresBackend(a: string, b: string)
    ensures DeleteWordUrlAsWritten(a) == DeleteWordUrlAsWritten(b)
  {
  }

  /** For a concrete backend address the written and the intended delete addresses differ. */
  lemma DeleteUrlAsWrittenIsWrong()
    ensures DeleteWordUrlAsWritten("http://localhost:5000") != DeleteWordUrl("http://localhost:5000")
  {
    assert DeleteWordUrlAsWritten("http://localhost:5000")[0] == '$';
    assert DeleteWordUrl("http://localhost:5000")[0] == 'h';
  }

  /** The intended delete address goes to the same backend as the load, and different backends get different addresses. */
  lemma DeleteUrlFollowsBackend(a: string, b: string)
    ensures DeleteWordUrl(a)[..|a|] == WordsUrl(a)[..|a|] == a
    ensures a != b ==> DeleteWordUrl(a) != DeleteWordUrl(b)
  {
    if a != b && |a| == |b| {
      assert DeleteWordUrl(a)[..|a|] != DeleteWordUrl(b)[..|b|];
    }
  }
}
