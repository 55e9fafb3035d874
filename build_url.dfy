/**
 * URL assembly (src/common/utils/buildUrl.ts).
 *
 * The path template compiler (path-to-regexp's `compile`) and the query
 * encoder (`URLSearchParams`) are parameters: the model verifies how their
 * outputs are put together.
 */
module BuildUrl {
  import opened Wrappers

  /** The optional arguments of a built URL (`IURLParams`). */
  datatype URLParams<P, Q> = URLParams(params: Option<P>, query: Option<Q>, fragment: Option<string>)

  /** `parts.filter(Boolean)`: drops undefined and empty-string parts. */
  function Filter(parts: seq<Option<string>>): (r: seq<string>)
    ensures forall i :: 0 <= i < |r| ==> r[i] != ""
    decreases |parts|
  {
    if parts == [] then []
    else if parts[0].None? || parts[0].value == "" then Filter(parts[1..])
    else [parts[0].value] + Filter(parts[1..])
  }

  /** `join("")`: concatenation in order. */
  function Join(parts: seq<string>): string
    decreases |parts|
  {
    if parts == [] then "" else parts[0] + Join(parts[1..])
  }

  /** Concatenation in order with undefined parts read as empty. */
  function Concat(parts: seq<Option<string>>): string
    decreases |parts|
  {
    if parts == [] then "" else parts[0].GetOr("") + Concat(parts[1..])
  }

  /** Filtering falsy parts before joining changes nothing but their absence. */
  lemma {:induction false} JoinFilterIsConcat(parts: seq<Option<string>>)
    ensures Join(Filter(parts)) == Concat(parts)
    decreases |parts|
  {
    if parts != [] {
      JoinFilterIsConcat(parts[1..]);
      if parts[0].Some? && parts[0].value != "" {
        assert Filter(parts) == [parts[0].value] + Filter(parts[1..]);
      }
    }
  }

  lemma ConcatOfThree(parts: seq<Option<string>>)
    requires |parts| == 3
    ensures Concat(parts) == parts[0].GetOr("") + parts[1].GetOr("") + parts[2].GetOr("")
  {
    assert parts[1..][1..][1..] == [];
    assert Concat(parts[2..]) == parts[2].GetOr("");
    assert Concat(parts[1..]) == parts[1].GetOr("") + Concat(parts[2..]);
  }

  /** The query part: nothing for an empty encoding, else "?" and the encoding. */
  function QueryPart(encoded: string): (r: string)
    ensures r == "" <==> encoded == ""
    ensures r != "" ==> r[0] == '?' && r[1..] == encoded && |r| > 1
  {
    if encoded == "" then "" else "?" + encoded
  }

  /** The fragment part: nothing for a missing or empty fragment, else "#" and it. */
  function FragmentPart(fragment: Option<string>): (r: string)
    ensures r == "" <==> fragment.None? || fragment.value == ""
    ensures r != "" ==> r[0] == '#' && r[1..] == fragment.value && |r| > 1
  {
    if fragment.None? || fragment.value == "" then "" else "#" + fragment.value
  }

  /** The encoded query, empty when no query object is given. */
  function EncodedQuery<Q>(encode: Q -> string, query: Option<Q>): string {
    if query.Some? then encode(query.value) else ""
  }

  /**
   * The function returned by `buildURL(path)`, applied to `opts`: the
   * compiled path, then the query part, then the fragment part.
   */
  function BuildURL<P, Q>(compile: string -> Option<P> -> string, encode: Q -> string, path: string,
                          opts: URLParams<P, Q>): (url: string)
    ensures url == compile(path)(opts.params) + QueryPart(EncodedQuery(encode, opts.query))
                   + FragmentPart(opts.fragment)
  {
    var queryParams := EncodedQuery(encode, opts.query);
    var parts := [
      Some(compile(path)(opts.params)),
      Some(if queryParams == "" then queryParams else "?" + queryParams),
      if opts.fragment.None? || opts.fragment.value == "" then opts.fragment
      else Some("#" + opts.fragment.value)
    ];
    JoinFilterIsConcat(parts);
    ConcatOfThree(parts);
    Join(Filter(parts))
  }

  /** With no query and no (or an empty) fragment the URL is the compiled path. */
  lemma PathOnly<P, Q>(compile: string -> Option<P> -> string, encode: Q -> string, path: string,
                       params: Option<P>, fragment: Option<string>)
    requires fragment.None? || fragment == Some("")
    ensures BuildURL(compile, encode, path, URLParams(params, None, fragment)) == compile(path)(params)
  {
  }

  /** The query part is present iff a query object is given and encodes to something. */
  lemma QueryPartPresence<Q>(encode: Q -> string, query: Option<Q>)
    ensures QueryPart(EncodedQuery(encode, query)) != "" <==> query.Some? && encode(query.value) != ""
  {
  }

  /** `buildURLPositional(path)(params, query, fragment)`. */
  function BuildURLPositional<P, Q>(compile: string -> Option<P> -> string, encode: Q -> string, path: string,
                                    params: Option<P>, query: Option<Q>, fragment: Option<string>): (url: string)
    ensures url == compile(path)(params) + QueryPart(EncodedQuery(encode, query)) + FragmentPart(fragment)
  {
    BuildURL(compile, encode, path, URLParams(params, query, fragment))
  }
}
