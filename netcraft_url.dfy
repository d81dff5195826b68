/** `encodeUrlForNetcraft` (scripts/script.js:1-22): the token that names a URL in
    the reputation service's lookup path. The WHATWG URL parser is not modelled: its
    outcome is an input, `None` when `new URL(url)` throws. */
module NetcraftUrl {
  import opened Options
  import opened Text
  import opened Base64

  /** What the script reads from a parsed URL. */
  datatype ParsedUrl = ParsedUrl(origin: string, pathname: string)

  /** The path after dropping one trailing `/`, then one leading `/`. */
  function TrimPath(pathname: string): string {
    var p := if EndsWith(pathname, "/") then pathname[..|pathname| - 1] else pathname;
    if StartsWith(p, "/") then p[1..] else p
  }

  /** The string that is base-64 encoded for a parsed URL: the origin, followed, when
      the trimmed path is not empty, by `?x=` and the path with each `/` written as
      `?x=`. */
  function PreEncoding(u: ParsedUrl): (r: string)
    ensures StartsWith(r, u.origin)
  {
    var p := TrimPath(u.pathname);
    u.origin + (if p == [] then [] else "?x=" + ReplaceChar(p, '/', "?x="))
  }

  /** The string whose encoding is returned: the pre-encoding when the URL parsed
      and `btoa` accepts it, otherwise (the `catch` branch) the raw input. */
  function TokenSource(url: string, parsed: Option<ParsedUrl>): string {
    if parsed.Some? && IsBinaryString(PreEncoding(parsed.value)) then PreEncoding(parsed.value)
    else url
  }

  /** `btoa` in the `catch` branch is not guarded: the function returns only when
      the string it finally encodes fits in bytes. */
  predicate Encodable(url: string, parsed: Option<ParsedUrl>) {
    IsBinaryString(TokenSource(url, parsed))
  }

  method EncodeUrlForNetcraft(url: string, parsed: Option<ParsedUrl>) returns (token: string)
    requires Encodable(url, parsed)
    ensures token == Base64Url(TokenSource(url, parsed))
    ensures forall i | 0 <= i < |token| :: IsUrlSafeChar(token[i])
    ensures Atob(FromUrlSafe(token)) == Some(TokenSource(url, parsed))
  {
    Base64UrlRoundTrip(TokenSource(url, parsed));
    if parsed.Some? {
      var path := parsed.value.pathname;
      if EndsWith(path, "/") {
        path := path[..|path| - 1];
      }
      if StartsWith(path, "/") {
        path := path[1..];
      }
      var encodedPath := Join(Split(path, '/'), "?x=");
      var s := parsed.value.origin + (if encodedPath != [] then "?x=" + encodedPath else []);
      SegmentsGivePreEncoding(parsed.value, path);
      if IsBinaryString(s) {
        token := ToUrlSafe(Btoa(s));
        return;
      }
    }
    token := ToUrlSafe(Btoa(url));
  }

  /** Joining the trimmed path's segments with `?x=`, as the method does, builds the
      pre-encoding. */
  lemma SegmentsGivePreEncoding(u: ParsedUrl, path: string)
    requires path == TrimPath(u.pathname)
    ensures var encodedPath := Join(Split(path, '/'), "?x=");
      u.origin + (if encodedPath != [] then "?x=" + encodedPath else []) == PreEncoding(u)
  {
    JoinSplit(path, '/', "?x=");
  }

  /** One slash added at each end is exactly what trimming removes. */
  lemma TrimWrapped(q: string)
    ensures TrimPath("/" + q + "/") == q
  {
    var w := "/" + q + "/";
    assert EndsWith(w, "/");
    assert w[..|w| - 1] == "/" + q;
    assert StartsWith("/" + q, "/");
    assert ("/" + q)[1..] == q;
  }

  predicate SlashBounded(p: string) {
    StartsWith(p, "/") || EndsWith(p, "/")
  }

  /** Trimming changes a path exactly when it starts or ends with a slash. */
  lemma TrimFixedPoint(p: string)
    ensures TrimPath(p) == p <==> !SlashBounded(p)
  {
    if EndsWith(p, "/") {
      assert |TrimPath(p)| < |p|;
    } else if StartsWith(p, "/") {
      assert |TrimPath(p)| < |p|;
    }
  }

  /** A path written with or without its bounding slashes gives the same encoded
      string, hence the same token. */
  lemma PreEncodingIgnoresBoundingSlashes(origin: string, q: string)
    requires !SlashBounded(q)
    ensures PreEncoding(ParsedUrl(origin, "/" + q + "/")) == PreEncoding(ParsedUrl(origin, q))
  {
    TrimWrapped(q);
    TrimFixedPoint(q);
  }

  /** The origin alone is encoded exactly when the trimmed path is empty; otherwise
      the trimmed path's segments follow it, each introduced by `?x=`. */
  lemma PreEncodingShape(u: ParsedUrl)
    ensures PreEncoding(u) == u.origin <==> TrimPath(u.pathname) == []
    ensures TrimPath(u.pathname) != [] ==>
      PreEncoding(u) == u.origin + ("?x=" + Join(Split(TrimPath(u.pathname), '/'), "?x="))
  {
    var p := TrimPath(u.pathname);
    JoinSplit(p, '/', "?x=");
    if p != [] {
      assert |PreEncoding(u)| > |u.origin|;
    }
  }

  /** The root path `/` and the empty path both leave just the origin. */
  lemma RootPathIsOrigin(origin: string)
    ensures PreEncoding(ParsedUrl(origin, "/")) == origin
    ensures PreEncoding(ParsedUrl(origin, "")) == origin
  {
    assert TrimPath("/") == [];
  }

  lemma ExamplePath(origin: string)
    ensures PreEncoding(ParsedUrl(origin, "/a/b/")) == origin + "?x=a?x=b"
  {
    TrimWrapped("a/b");
    assert "/" + "a/b" + "/" == "/a/b/";
    assert ReplaceChar("b", '/', "?x=") == "b";
    assert ReplaceChar("/b", '/', "?x=") == "?x=b";
    assert ReplaceChar("a/b", '/', "?x=") == "a?x=b";
    assert "?x=" + "a?x=b" == "?x=a?x=b";
  }
}
