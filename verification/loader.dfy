/**
 The load-once registry (`loadOnce`, `github.js` lines 3-8) and the
 highlighter bootstrap that uses it (`ensureHighlightReady`, lines 32-36).
 A promise is represented by the way it settles; whether a script or style
 sheet loads is a parameter (`env`), since it depends on the network. The
 registry remembers the settled promise under its key, so a rejected load
 stays rejected: nothing retries it.
 */
module Loading {

  datatype Settled = Resolved | Rejected

  /** The registry of stored promises, and the URLs of the elements added to
      the document head, in the order they were added. */
  datatype Loader = Loader(registry: map<string, Settled>, appended: seq<string>)

  const Fresh := Loader(map[], [])

  const CssKey := "hljs-css"
  const CoreKey := "hljs-core"
  const LnKey := "hljs-ln"

  const CssUrl := "https://cdnjs.cloudflare.com/ajax/libs/highlight.js/11.9.0/styles/atom-one-dark.min.css"
  const CoreUrl := "https://cdnjs.cloudflare.com/ajax/libs/highlight.js/11.9.0/highlight.min.js"
  const LnUrl := "https://cdnjs.cloudflare.com/ajax/libs/highlightjs-line-numbers.js/2.8.0/highlightjs-line-numbers.min.js"

  /** `loadOnce(key, loader)`: a stored promise is returned as it is; otherwise
      the loader runs (adding the element for `url`), its promise, which
      settles as `outcome`, is stored and returned. */
  function LoadOnce(st: Loader, key: string, url: string, outcome: Settled): (r: (Loader, Settled))
    ensures key in r.0.registry && r.1 == r.0.registry[key]
    ensures key in st.registry ==> r.0 == st
    ensures key !in st.registry ==>
      r.1 == outcome && r.0.appended == st.appended + [url] &&
      r.0.registry.Keys == st.registry.Keys + {key}
    ensures forall k :: k in st.registry ==> k in r.0.registry && r.0.registry[k] == st.registry[k]
  {
    if key in st.registry then (st, st.registry[key])
    else (Loader(st.registry[key := outcome], st.appended + [url]), outcome)
  }

  /** How the promise under `key` settles: the stored one if any, otherwise
      whatever loading `url` gives. */
  function Outcome(st: Loader, key: string, url: string, env: string -> Settled): Settled
  {
    if key in st.registry then st.registry[key] else env(url)
  }

  /** The three loads awaited in sequence; the first rejection propagates
      and the loads after it are never started. */
  function EnsureHighlightReady(st: Loader, env: string -> Settled): (r: (Loader, Settled))
    ensures r.1 == Resolved <==>
      Outcome(st, CssKey, CssUrl, env) == Resolved &&
      Outcome(st, CoreKey, CoreUrl, env) == Resolved &&
      Outcome(st, LnKey, LnUrl, env) == Resolved
    ensures Outcome(st, CssKey, CssUrl, env) == Rejected ==>
      CoreKey !in st.registry ==> CoreKey !in r.0.registry
    ensures forall k :: k in st.registry ==> k in r.0.registry && r.0.registry[k] == st.registry[k]
  {
    var (s1, a) := LoadOnce(st, CssKey, CssUrl, env(CssUrl));
    if a == Rejected then (s1, Rejected)
    else
      var (s2, b) := LoadOnce(s1, CoreKey, CoreUrl, env(CoreUrl));
      if b == Rejected then (s2, Rejected)
      else LoadOnce(s2, LnKey, LnUrl, env(LnUrl))
  }

  // ----- properties ---------------------------------------------------------

  /** Each loader ran at most once: one element per stored key, none twice,
      for loaders keyed `k1`, `k2`, `k3` that add `u1`, `u2`, `u3`. */
  ghost predicate ValidFor(st: Loader, k1: string, k2: string, k3: string,
                           u1: string, u2: string, u3: string)
  {
    && |st.appended| == |st.registry|
    && Distinct(st.appended)
    && (forall k :: k in st.registry ==> k == k1 || k == k2 || k == k3)
    && (k1 in st.registry <==> u1 in st.appended)
    && (k2 in st.registry <==> u2 in st.appended)
    && (k3 in st.registry <==> u3 in st.appended)
    && (forall u :: u in st.appended ==> u == u1 || u == u2 || u == u3)
  }

  /** The invariant for the three highlighter assets. */
  ghost predicate Valid(st: Loader)
  {
    ValidFor(st, CssKey, CoreKey, LnKey, CssUrl, CoreUrl, LnUrl)
  }

  predicate Distinct<T(==)>(s: seq<T>)
  {
    forall i, j :: 0 <= i < j < |s| ==> s[i] != s[j]
  }

  lemma DistinctAppend<T>(s: seq<T>, x: T)
    requires Distinct(s) && x !in s
    ensures Distinct(s + [x])
  {
    forall i, j | 0 <= i < j < |s| + 1 ensures (s + [x])[i] != (s + [x])[j] {
      if j == |s| {
        assert (s + [x])[i] in s;
      }
    }
  }

  lemma UrlsDistinct()
    ensures CssUrl != CoreUrl && CssUrl != LnUrl && CoreUrl != LnUrl
    ensures CssKey != CoreKey && CssKey != LnKey && CoreKey != LnKey
  {
    assert |CssUrl| == 87 && |CoreUrl| == 75 && |LnUrl| == 104;
    assert |CssKey| == 8 && |CoreKey| == 9 && |LnKey| == 7;
  }

  lemma LoadOnceValidFor(st: Loader, key: string, url: string, outcome: Settled,
                         k1: string, k2: string, k3: string, u1: string, u2: string, u3: string)
    requires k1 != k2 && k1 != k3 && k2 != k3 && u1 != u2 && u1 != u3 && u2 != u3
    requires ValidFor(st, k1, k2, k3, u1, u2, u3)
    requires (key == k1 && url == u1) || (key == k2 && url == u2) || (key == k3 && url == u3)
    ensures ValidFor(LoadOnce(st, key, url, outcome).0, k1, k2, k3, u1, u2, u3)
  {
    if key !in st.registry {
      var r := LoadOnce(st, key, url, outcome).0;
      assert url !in st.appended;
      assert r.registry == st.registry[key := outcome];
      assert r.appended == st.appended + [url];
      DistinctAppend(st.appended, url);
      forall u | u in r.appended ensures u == u1 || u == u2 || u == u3 {
        if u != url {
          assert u in st.appended;
        }
      }
      forall k | k in r.registry ensures k == k1 || k == k2 || k == k3 {
      }
    }
  }

  lemma LoadOnceValid(st: Loader, key: string, url: string, outcome: Settled)
    requires Valid(st)
    requires (key == CssKey && url == CssUrl) || (key == CoreKey && url == CoreUrl) || (key == LnKey && url == LnUrl)
    ensures Valid(LoadOnce(st, key, url, outcome).0)
  {
    UrlsDistinct();
    LoadOnceValidFor(st, key, url, outcome, CssKey, CoreKey, LnKey, CssUrl, CoreUrl, LnUrl);
  }

  /** Running the bootstrap keeps the registry valid: no loader ever runs a
      second time, however many files are opened. */
  lemma EnsureValid(st: Loader, env: string -> Settled)
    requires Valid(st)
    ensures Valid(EnsureHighlightReady(st, env).0)
  {
    var r := EnsureHighlightReady(st, env).0;
    var s1 := LoadOnce(st, CssKey, CssUrl, env(CssUrl));
    LoadOnceValid(st, CssKey, CssUrl, env(CssUrl));
    if s1.1 == Rejected {
      assert r == s1.0;
    } else {
      var s2 := LoadOnce(s1.0, CoreKey, CoreUrl, env(CoreUrl));
      LoadOnceValid(s1.0, CoreKey, CoreUrl, env(CoreUrl));
      if s2.1 == Rejected {
        assert r == s2.0;
      } else {
        LoadOnceValid(s2.0, LnKey, LnUrl, env(LnUrl));
        assert r == LoadOnce(s2.0, LnKey, LnUrl, env(LnUrl)).0;
      }
    }
  }

  lemma FreshValid()
    ensures Valid(Fresh)
  {
  }

  /** A failed style-sheet load is remembered: every later bootstrap fails at
      once, loads nothing and changes nothing, whatever the network would do
      now. */
  lemma RejectionIsFinal(st: Loader, env: string -> Settled)
    requires CssKey in st.registry && st.registry[CssKey] == Rejected
    ensures EnsureHighlightReady(st, env) == (st, Rejected)
  {
  }

  /** Once the bootstrap has succeeded, it succeeds again without touching
      anything. */
  lemma SuccessIsFinal(st: Loader, env: string -> Settled, env2: string -> Settled)
    requires EnsureHighlightReady(st, env).1 == Resolved
    ensures var s := EnsureHighlightReady(st, env).0;
      EnsureHighlightReady(s, env2) == (s, Resolved)
  {
    UrlsDistinct();
  }

  /** A failed bootstrap is remembered too, whichever of the three loads
      failed: every later bootstrap fails at once and changes nothing. */
  lemma FailureIsFinal(st: Loader, env: string -> Settled, env2: string -> Settled)
    requires EnsureHighlightReady(st, env).1 == Rejected
    ensures var s := EnsureHighlightReady(st, env).0;
      EnsureHighlightReady(s, env2) == (s, Rejected)
  {
    UrlsDistinct();
  }

  /** From a fresh page the elements are added in the order style sheet,
      core, line numbers, stopping after the first that fails. */
  lemma FreshOrder(env: string -> Settled)
    ensures var r := EnsureHighlightReady(Fresh, env);
      r.0.appended ==
        if env(CssUrl) == Rejected then [CssUrl]
        else if env(CoreUrl) == Rejected then [CssUrl, CoreUrl]
        else [CssUrl, CoreUrl, LnUrl]
  {
    UrlsDistinct();
  }
}
