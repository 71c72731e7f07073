/**
 * The `webSearch` inline handler of src/webSearch.tsx: launcher text that
 * starts with `web` becomes a Google search URL for the rest of the text.
 */
module WebSearch {
  import opened Wrappers
  import opened JsString
  import UriEncoding

  /** The case-sensitive trigger word. */
  const Keyword: string := "web"

  /** The fixed search endpoint; the engine is always Google. */
  const GooglePrefix: string := "https://www.google.com/search?q="

  /** The guard, the `^web\s*` strip, `trim()` and the empty check: the query
      the handler searches for, or `None` when it renders nothing. */
  function ParseQuery(text: string): (r: Option<string>)
    ensures r.None? <==> !StartsWith(text, Keyword) || AllWhitespace(text[|Keyword|..])
    ensures r.Some? ==>
              StartsWith(text, Keyword) && r.value != []
              && IsTrimmed(r.value) && Pads(text[|Keyword|..], r.value)
  {
    if !StartsWith(text, Keyword) then None
    else
      var q := Trim(ReplaceLeading(text, Keyword));
      StrippedQueryFacts(text);
      if |q| == 0 then None else Some(q)
  }

  /** What the strip and the trim leave of text that starts with `web`. */
  lemma StrippedQueryFacts(text: string)
    requires StartsWith(text, Keyword)
    ensures var q := Trim(ReplaceLeading(text, Keyword));
      (q == [] <==> AllWhitespace(text[|Keyword|..])) && Pads(text[|Keyword|..], q)
  {
    var stripped := ReplaceLeading(text, Keyword);
    var rest := text[|Keyword|..];
    var lead := text[|Keyword|..|text| - |stripped|];
    assert rest == lead + stripped;
    PadsExtend(lead, stripped, Trim(stripped));
    if stripped == [] {
      assert rest == lead;
    } else {
      assert !IsWhitespace(rest[|lead|]);
      TrimNonEmpty(stripped);
    }
  }

  /** A string that starts with a non-white-space character does not trim to nothing. */
  lemma TrimNonEmpty(s: string)
    requires s != [] && !IsWhitespace(s[0])
    ensures Trim(s) != []
  {
  }

  /** The search URL for a query: the Google endpoint followed by
      `encodeURIComponent(q)`. */
  function SearchUrl(q: string): (url: string)
    ensures StartsWith(url, GooglePrefix)
    ensures |GooglePrefix| + |q| <= |url|
  {
    GooglePrefix + UriEncoding.Encode(q)
  }

  /** The whole handler: the URL it opens, or `None` when it renders nothing. */
  function WebSearch(text: string): (r: Option<string>)
    ensures r.None? <==> !StartsWith(text, Keyword) || AllWhitespace(text[|Keyword|..])
    ensures r.Some? ==> StartsWith(r.value, GooglePrefix)
  {
    match ParseQuery(text)
    case None => None
    case Some(q) => Some(SearchUrl(q))
  }

  /** The query part of a search URL: what follows the fixed prefix. */
  function QueryPart(url: string): string
    requires StartsWith(url, GooglePrefix)
  {
    url[|GooglePrefix|..]
  }

  /** The URL carries the query exactly: its query part is an encoded component
      that percent-decodes and UTF-8-decodes back to the query. */
  lemma SearchUrlDecodes(q: string)
    ensures StartsWith(SearchUrl(q), GooglePrefix)
    ensures UriEncoding.IsEncodedComponent(QueryPart(SearchUrl(q)))
    ensures UriEncoding.DecodeComponent(QueryPart(SearchUrl(q))) == Some(q)
  {
    var e := UriEncoding.Encode(q);
    assert (GooglePrefix + e)[|GooglePrefix|..] == e;
    UriEncoding.EncodeShape(q);
    UriEncoding.DecodeEncode(q);
  }

  /** Whenever the handler produces a URL, decoding its query part gives back
      the query that was parsed from the text. */
  lemma WebSearchDecodes(text: string)
    requires WebSearch(text).Some?
    ensures UriEncoding.DecodeComponent(QueryPart(WebSearch(text).value)) == ParseQuery(text)
  {
    SearchUrlDecodes(ParseQuery(text).value);
  }

  /** Any text padding a trimmed, non-empty query after `web` parses to that
      query; with `ParseQuery`'s postcondition this characterises its result. */
  lemma ParseQueryComplete(text: string, q: string)
    requires StartsWith(text, Keyword) && q != [] && IsTrimmed(q)
    requires Pads(text[|Keyword|..], q)
    ensures ParseQuery(text) == Some(q)
  {
    var rest := text[|Keyword|..];
    var i :| PadsAt(rest, q, i);
    var a, b := rest[..i], rest[i + |q|..];
    assert rest == a + (q + b);
    StrippedQuery(text, a, q, b);
  }

  lemma StrippedQuery(text: string, a: string, q: string, b: string)
    requires StartsWith(text, Keyword) && text[|Keyword|..] == a + (q + b)
    requires AllWhitespace(a) && AllWhitespace(b) && q != [] && IsTrimmed(q)
    ensures Trim(ReplaceLeading(text, Keyword)) == q
  {
    ReplaceLeadingSkips(text, Keyword, a, q + b);
    TrimDropsTrailing(q, b);
  }

  /** Round trip: `web`, any run of white space (even none) and a trimmed
      non-empty query parse to exactly that query. */
  lemma ParseQueryRoundTrip(sep: string, q: string, text: string)
    requires AllWhitespace(sep) && q != [] && IsTrimmed(q)
    requires text == Keyword + sep + q
    ensures ParseQuery(text) == Some(q)
  {
    var rest := text[|Keyword|..];
    assert rest == sep + q;
    assert rest[|sep|..|sep| + |q|] == q && rest[..|sep|] == sep && rest[|sep| + |q|..] == [];
    assert PadsAt(rest, q, |sep|);
    ParseQueryComplete(text, q);
  }

  /** `"web " + q` in particular: the usual way the handler is typed. */
  lemma ParseQueryWithSpace(q: string)
    requires q != [] && IsTrimmed(q)
    ensures ParseQuery("web " + q) == Some(q)
  {
    assert AllWhitespace(" ");
    ParseQueryRoundTrip(" ", q, "web " + q);
  }

  /** The prefix test is case-sensitive and positional: `Web x` and `search x`
      give nothing. */
  lemma RejectsOtherPrefixes()
    ensures ParseQuery("Web x") == None && WebSearch("Web x") == None
    ensures ParseQuery("search x") == None && WebSearch("search x") == None
  {
    assert "Web x"[..3][0] != Keyword[0];
    assert "search x"[..3][0] != Keyword[0];
  }

  /** Nothing but white space after `web` gives nothing. */
  lemma RejectsBlankQueries()
    ensures ParseQuery("web") == None
    ensures ParseQuery("web   ") == None
    ensures ParseQuery("web\t\n") == None
  {
    assert "web"[..3] == Keyword;
    assert "web   "[..3] == Keyword && AllWhitespace("web   "[3..]);
    assert "web\t\n"[..3] == Keyword && AllWhitespace("web\t\n"[3..]);
  }

  /** White space after `web` is optional: `website foo` searches for `site foo`. */
  lemma KeywordNeedsNoSeparator()
    ensures ParseQuery("website foo") == Some("site foo")
  {
    assert !IsWhitespace('s') && !IsWhitespace('o');
    ParseQueryRoundTrip("", "site foo", "website foo");
  }

  /** Distinct queries lead to distinct URLs. */
  lemma SearchUrlInjective(q1: string, q2: string)
    requires SearchUrl(q1) == SearchUrl(q2)
    ensures q1 == q2
  {
    SearchUrlDecodes(q1);
    SearchUrlDecodes(q2);
  }

  /** The query can neither add a parameter nor start a fragment: after the
      fixed prefix no `&`, `=`, `#`, `?`, `+` or space appears. */
  lemma NoDelimitersInQuery(q: string)
    ensures var tail := QueryPart(SearchUrl(q));
      '&' !in tail && '=' !in tail && '#' !in tail && '?' !in tail && '+' !in tail && ' ' !in tail
  {
    var tail := UriEncoding.Encode(q);
    assert QueryPart(SearchUrl(q)) == tail;
    UriEncoding.EncodeShape(q);
    UriEncoding.NoDelimiters(tail);
  }

  /** The search for `hello world`. */
  lemma HelloWorldUrl()
    ensures WebSearch("web hello world") == Some("https://www.google.com/search?q=hello%20world")
  {
    assert GooglePrefix + "hello%20world" == "https://www.google.com/search?q=hello%20world";
    HelloWorldQuery();
    HelloWorldEncoding();
    WebSearchOfQuery("web hello world", "hello world", "hello%20world");
  }

  lemma WebSearchOfQuery(text: string, q: string, e: string)
    requires ParseQuery(text) == Some(q)
    requires UriEncoding.Encode(q) == e
    ensures WebSearch(text) == Some(GooglePrefix + e)
  {
  }

  lemma HelloWorldQuery()
    ensures ParseQuery("web hello world") == Some("hello world")
  {
    var q := "hello world";
    assert !IsWhitespace(q[0]) && !IsWhitespace(q[10]);
    assert AllWhitespace(" ");
    assert "web hello world" == Keyword + " " + q;
    ParseQueryRoundTrip(" ", q, "web hello world");
  }

  lemma HelloWorldEncoding()
    ensures UriEncoding.Encode("hello world") == "hello%20world"
  {
    assert "hello world" == "hello" + " " + "world";
    UriEncoding.SpaceBetweenWords("hello", "world");
    assert "hello" + "%20" + "world" == "hello%20world";
  }
}
