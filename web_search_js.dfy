/**
 * The compiled handler of js/web-search.js. Its guard, strip, empty check and
 * URL are written inline as the build output has them, and the result is
 * proved equal to the handler of src/webSearch.tsx for every input.
 */
module WebSearchJs {
  import opened Wrappers
  import opened JsString
  import UriEncoding
  import Source = WebSearch

  /** The compiled `webSearch`: the URL it opens, or `None` when it renders
      nothing. For every text it agrees with the source version. */
  function WebSearch(text: string): (r: Option<string>)
    ensures r == Source.WebSearch(text)
  {
    if !StartsWith(text, "web") then None
    else
      var searchQuery := Trim(ReplaceLeading(text, "web"));
      if |searchQuery| == 0 then None
      else Some("https://www.google.com/search?q=" + UriEncoding.Encode(searchQuery))
  }

  /** The compiled guard and empty check: no URL exactly when the text does not
      start with `web` or only white space follows it; and a URL, when there
      is one, decodes back to the trimmed query. */
  lemma CompiledResult(text: string)
    ensures WebSearch(text).None? <==> !StartsWith(text, "web") || AllWhitespace(text[3..])
    ensures WebSearch(text).Some? ==>
              StartsWith(WebSearch(text).value, Source.GooglePrefix)
              && UriEncoding.DecodeComponent(Source.QueryPart(WebSearch(text).value))
                 == Source.ParseQuery(text)
  {
    if WebSearch(text).Some? {
      Source.WebSearchDecodes(text);
    }
  }

  /** Two texts that open the same URL searched for the same query. */
  lemma SameUrlSameQuery(t1: string, t2: string)
    requires WebSearch(t1) == WebSearch(t2)
    ensures Source.ParseQuery(t1) == Source.ParseQuery(t2)
  {
    if WebSearch(t1).Some? {
      Source.WebSearchDecodes(t1);
      Source.WebSearchDecodes(t2);
    }
  }
}
