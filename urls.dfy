/** Links to members' own sites, which the content store may hold without a scheme. */
module Urls {
  import opened Options
  import opened Text

  predicate HasScheme(url: string) {
    StartsWith(url, "http://") || StartsWith(url, "https://")
  }

  /** `ensureHttps`: a missing or empty URL becomes "", one with a scheme is kept, any other
      gets `https://` in front. */
  function EnsureHttps(url: Option<string>): (r: string)
    ensures r == "" <==> url.None? || url.value == ""
    ensures r != "" ==> HasScheme(r)
    ensures url.Some? && HasScheme(url.value) ==> r == url.value
    ensures url.Some? && url.value != "" ==> |r| >= |url.value| && r[|r| - |url.value|..] == url.value
    ensures url.Some? && url.value != "" && !HasScheme(url.value) ==> r == "https://" + url.value
  {
    if url.None? || url.value == "" then ""
    else if HasScheme(url.value) then url.value
    else
      var r := "https://" + url.value;
      assert r[..|"https://"|] == "https://";
      r
  }

  /** Applying it to its own result changes nothing. */
  lemma EnsureHttpsIdempotent(url: Option<string>)
    ensures EnsureHttps(Some(EnsureHttps(url))) == EnsureHttps(url)
  {
  }
}
