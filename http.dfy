/**
  HTTP as both installers see it: each request is answered by the next
  response of a list supplied in advance, and a list that has run out stands
  for a request that failed in transport.
 */
module Http {
  import opened Text

  /** One response: its `location` header (if any), its status code, its
      `content-length` header parsed as a number (None when absent or not a
      number), the body that arrived, and whether the body arrived whole. */
  datatype Response = Response(
    location: Option<string>,
    status: int,
    contentLength: Option<nat>,
    body: string,
    complete: bool)

  /** Joining a redirect location onto the current URL (`urljoin`,
      `url.resolve`): an empty location leaves the URL as it is, and any other
      location is taken as an absolute URL. */
  function Resolve(base: string, location: string): (r: string)
    ensures location == "" ==> r == base
    ensures location != "" ==> r == location
  {
    if location == "" then base else location
  }

  /** r is what is left of s once some responses at its front are used up. */
  predicate Suffix(r: seq<Response>, s: seq<Response>) {
    |r| <= |s| && r == s[|s| - |r|..]
  }

  lemma SuffixRefl(s: seq<Response>)
    ensures Suffix(s, s)
  {
    assert s[|s| - |s|..] == s;
  }

  lemma SuffixTail(s: seq<Response>)
    requires s != []
    ensures Suffix(s[1..], s)
  {
  }

  lemma SuffixTrans(a: seq<Response>, b: seq<Response>, c: seq<Response>)
    requires Suffix(a, b) && Suffix(b, c)
    ensures Suffix(a, c)
  {
    assert c[|c| - |b|..][|b| - |a|..] == c[|c| - |a|..];
  }
}
