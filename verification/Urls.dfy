/** URL patterns of subscriptions and prefix methods. */
module Urls {

  type Url = string

  /** What subscribe, publish and method registration accept. */
  predicate Rooted(url: Url) {
    |url| > 0 && url[0] == '/'
  }

  /** A subscription: "/" takes everything, a trailing slash takes a subtree, anything else is exact. */
  predicate SubMatches(sub: Url, url: Url)
    requires |sub| > 0
  {
    var n := |sub| - 1;
    || |sub| == 1
    || sub == url
    || (sub[n] == '/' && |url| >= n && url[..n] == sub[..n] && (|url| == n || url[n] == '/'))
  }

  /** A prefix method, stored without its trailing slash. */
  predicate PrefixMatches(path: Url, url: Url) {
    |path| <= |url| && url[..|path|] == path && (|path| == |url| || url[|path|] == '/')
  }

  /** Prefix matching stops at segment boundaries: the URL is the path itself or continues it with a slash. */
  lemma PrefixIsSubtree(path: Url, url: Url)
    ensures PrefixMatches(path, url) <==> url == path || exists rest: Url :: url == path + "/" + rest
  {
    if PrefixMatches(path, url) && url != path {
      assert url == path + "/" + url[|path| + 1..];
    }
    if rest: Url :| url == path + "/" + rest {
      assert url[..|path|] == path && url[|path|] == '/';
    }
  }

  /** A subscription to "/" takes every URL, one with a trailing slash takes what it begins and the path
      without the slash, any other takes itself only. */
  lemma SubscriptionMeaning(sub: Url, url: Url)
    requires |sub| > 0
    ensures SubMatches(sub, url)
            <==> || |sub| == 1
                 || url == sub
                 || (sub[|sub| - 1] == '/' && (sub <= url || url == sub[..|sub| - 1]))
  {
    var n := |sub| - 1;
    if sub <= url {
      assert url[..n] == sub[..n] && url[n] == sub[n];
    }
    if |url| > n && url[..n] == sub[..n] && url[n] == sub[n] {
      assert url[..n + 1] == sub;
    }
  }

  /** What a rooted subscription promises: "/" stands for everything, `p + "/"` for `p` and what lies under it, and
      any URL for itself. */
  predicate Covers(sub: Url, url: Url) {
    sub == "/" || sub == url || (sub != "" && sub[|sub| - 1] == '/' && (sub <= url || url + "/" == sub))
  }

  lemma MatchesWhatItCovers(sub: Url, url: Url)
    requires |sub| > 0 && sub[0] == '/'
    ensures SubMatches(sub, url) <==> Covers(sub, url)
  {
    SubscriptionMeaning(sub, url);
    assert |sub| == 1 ==> sub == "/";
    assert sub == sub[..|sub| - 1] + [sub[|sub| - 1]];
  }

  /** Subscriptions and prefix methods read a trailing-slash pattern the same way. */
  lemma SubAndPrefixAgree(pattern: Url, url: Url)
    requires |pattern| > 1 && pattern[|pattern| - 1] == '/'
    ensures SubMatches(pattern, url) <==> PrefixMatches(pattern[..|pattern| - 1], url)
  {
    var path := pattern[..|pattern| - 1];
    if pattern == url {
      assert url[..|path|] == path;
    }
  }

  /** A subscription set matches a URL if one of its patterns does. */
  predicate AnyMatches(subs: seq<Url>, url: Url)
    requires forall s <- subs :: |s| > 0
  {
    exists s <- subs :: SubMatches(s, url)
  }
}
