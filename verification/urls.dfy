/** URLs as the six components `urlparse` splits them into, and the
    component-level edits the template tags perform on them. */
module Urls {

  /** The 6-tuple `(scheme, netloc, path, params, query, fragment)`. The query
      is kept as the raw string: `add_fragment` passes it through unparsed. */
  datatype UrlParts = UrlParts(
    scheme: string,
    netloc: string,
    path: string,
    params: string,
    query: string,
    fragment: string)

  /** A parsed query string: each key with the list of its values. */
  type QueryDict = map<string, seq<string>>

  /** The library routines the tags delegate to, left abstract: splitting a
      URL into components and joining components back into a URL, parsing a
      query string into a dictionary, and encoding a dictionary back into a
      query string (sequence values expanded into one `key=value` per
      element). */
  datatype UrlLibrary = UrlLibrary(
    urlparse: string -> UrlParts,
    urlunparse: UrlParts -> string,
    parseQs: string -> QueryDict,
    urlencode: QueryDict -> string)

  /** `a` and `b` agree on every component but the query. */
  predicate SameExceptQuery(a: UrlParts, b: UrlParts)
  {
    && a.scheme == b.scheme
    && a.netloc == b.netloc
    && a.path == b.path
    && a.params == b.params
    && a.fragment == b.fragment
  }

  /** `a` and `b` agree on the first five components. */
  predicate SameExceptFragment(a: UrlParts, b: UrlParts)
  {
    && a.scheme == b.scheme
    && a.netloc == b.netloc
    && a.path == b.path
    && a.params == b.params
    && a.query == b.query
  }

  /** Reassembly with a new query: the first four components, the new query,
      then the original fragment. */
  function WithQuery(u: UrlParts, query: string): (r: UrlParts)
    ensures r.query == query
    ensures SameExceptQuery(r, u)
  {
    u.(query := query)
  }

  /** Reassembly with a new fragment: the first five components, then the
      given fragment. */
  function AddFragment(u: UrlParts, fragment: string): (r: UrlParts)
    ensures r.fragment == fragment
    ensures SameExceptFragment(r, u)
  {
    u.(fragment := fragment)
  }

  /** A second fragment replaces the first: only the last one applied is seen. */
  lemma AddFragmentLastWins(u: UrlParts, f1: string, f2: string)
    ensures AddFragment(AddFragment(u, f1), f2) == AddFragment(u, f2)
  {
  }

  /** Adding a fragment changes nothing exactly when the URL already has it. */
  lemma AddFragmentFixpoint(u: UrlParts, f: string)
    ensures AddFragment(u, f) == u <==> u.fragment == f
  {
  }

  /** The query edit and the fragment edit touch disjoint components, so
      their order does not matter. */
  lemma QueryAndFragmentCommute(u: UrlParts, q: string, f: string)
    ensures WithQuery(AddFragment(u, f), q) == AddFragment(WithQuery(u, q), f)
  {
  }
}
