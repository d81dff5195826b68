/** `defangUrl` (scripts/script.js:57-61): a URL rewritten so that it is neither a
    link nor a resolvable host name — the scheme becomes `hxxp:` and every dot
    `[.]`. */
module Defang {
  import opened Text

  /** `url.replace(/^https?:/, 'hxxp:')`: a leading `https:` or `http:` (lower case,
      as the regex is written) becomes `hxxp:`; anything else is left alone. */
  function ReplaceScheme(url: string): (r: string)
    ensures !StartsWith(url, "http:") && !StartsWith(url, "https:") ==> r == url
  {
    if StartsWith(url, "https:") then "hxxp:" + url[6..]
    else if StartsWith(url, "http:") then "hxxp:" + url[5..]
    else url
  }

  /** `s.replace(/\./g, '[.]')`. */
  function BracketDots(s: string): string {
    ReplaceChar(s, '.', "[.]")
  }

  /** `defangUrl(url)`. */
  function DefangUrl(url: string): string {
    BracketDots(ReplaceScheme(url))
  }

  /** Every `.` of `r` is the middle of a `[.]`. */
  predicate DotsBracketed(r: string) {
    forall i | 0 <= i < |r| && r[i] == '.' :: 0 < i < |r| - 1 && r[i - 1] == '[' && r[i + 1] == ']'
  }

  /** The reading back of a defanged string: each `[.]` becomes a `.` again. */
  function Unbracket(r: string): string {
    if |r| >= 3 && r[..3] == "[.]" then "." + Unbracket(r[3..])
    else if r == [] then []
    else [r[0]] + Unbracket(r[1..])
  }

  /** Bracketing never produces a string that starts with a bare `.`. */
  lemma BracketDotsHead(s: string)
    ensures BracketDots(s) == [] || BracketDots(s)[0] != '.'
  {
  }

  /** The scheme rewrite, stated per case: `https:` and `http:` both become `hxxp:`
      and the rest of the URL is kept as it is. */
  lemma SchemeCases(rest: string)
    ensures ReplaceScheme("https:" + rest) == "hxxp:" + rest
    ensures ReplaceScheme("http:" + rest) == "hxxp:" + rest
  {
    var u := "https:" + rest;
    assert u[..6] == "https:" && u[6..] == rest;
    var v := "http:" + rest;
    assert v[..5] == "http:" && v[5..] == rest;
    assert |v| >= 6 ==> v[4] == ':' && v[..6] != "https:";
  }

  /** Only the leading scheme is rewritten: a URL with scheme `https:` or `http:`
      defangs to `hxxp:` followed by the rest with its dots bracketed, and any
      other URL to itself with its dots bracketed. */
  lemma DefangShape(url: string)
    ensures StartsWith(url, "https:") ==> DefangUrl(url) == "hxxp:" + BracketDots(url[6..])
    ensures !StartsWith(url, "https:") && StartsWith(url, "http:") ==>
      DefangUrl(url) == "hxxp:" + BracketDots(url[5..])
    ensures !StartsWith(url, "https:") && !StartsWith(url, "http:") ==> DefangUrl(url) == BracketDots(url)
  {
    if StartsWith(url, "https:") {
      ReplaceCharAppend("hxxp:", url[6..], '.', "[.]");
    } else if StartsWith(url, "http:") {
      ReplaceCharAppend("hxxp:", url[5..], '.', "[.]");
    }
  }

  /** In a defanged string no `.` stands outside a `[.]`. */
  lemma {:induction false} BracketDotsBracketed(s: string)
    ensures DotsBracketed(BracketDots(s))
  {
    if s != [] {
      BracketDotsBracketed(s[1..]);
      var head := if s[0] == '.' then "[.]" else [s[0]];
      var tail := BracketDots(s[1..]);
      assert BracketDots(s) == head + tail;
      BracketDotsHead(s[1..]);
      forall i | 0 <= i < |head + tail| && (head + tail)[i] == '.'
        ensures 0 < i < |head + tail| - 1 && (head + tail)[i - 1] == '[' && (head + tail)[i + 1] == ']'
      {
        if i >= |head| {
          assert tail[i - |head|] == '.';
        }
      }
    }
  }

  /** Bracketing the dots loses nothing: reading each `[.]` back as `.` recovers the
      string, so every other character is kept, in order. */
  lemma {:induction false} UnbracketBracketDots(s: string)
    ensures Unbracket(BracketDots(s)) == s
  {
    if s != [] {
      UnbracketBracketDots(s[1..]);
      var tail := BracketDots(s[1..]);
      BracketDotsHead(s[1..]);
      if s[0] == '.' {
        var r := "[.]" + tail;
        assert r[..3] == "[.]" && r[3..] == tail;
      } else {
        var r := [s[0]] + tail;
        assert r[1..] == tail;
        assert |r| >= 3 ==> r[1] == tail[0] && r[..3] != "[.]";
        assert [s[0]] + s[1..] == s;
      }
    }
  }

  /** The defanged URL reads back as the URL with only its scheme rewritten. */
  lemma UnbracketDefang(url: string)
    ensures Unbracket(DefangUrl(url)) == ReplaceScheme(url)
    ensures DotsBracketed(DefangUrl(url))
  {
    UnbracketBracketDots(ReplaceScheme(url));
    BracketDotsBracketed(ReplaceScheme(url));
  }

  lemma BracketSingleDot(before: string, after: string)
    requires '.' !in before && '.' !in after
    ensures BracketDots(before + "." + after) == before + "[.]" + after
  {
    ReplaceCharAppend(before + ".", after, '.', "[.]");
    ReplaceCharAppend(before, ".", '.', "[.]");
    assert ReplaceChar(".", '.', "[.]") == "[.]" + ReplaceChar([], '.', "[.]");
  }

  lemma BracketAfterScheme(x: string)
    ensures BracketDots("hxxp:" + x) == "hxxp:" + BracketDots(x)
  {
    ReplaceCharAppend("hxxp:", x, '.', "[.]");
  }

  /** A URL such as `https://example.com/path` — a scheme, then text with a single
      dot — defangs to `hxxp://example[.]com/path`. */
  lemma DefangSingleDot(before: string, after: string)
    requires '.' !in before && '.' !in after
    ensures DefangUrl("https:" + (before + "." + after)) == "hxxp:" + (before + "[.]" + after)
    ensures DefangUrl("http:" + (before + "." + after)) == "hxxp:" + (before + "[.]" + after)
  {
    var x := before + "." + after;
    SchemeCases(x);
    BracketAfterScheme(x);
    BracketSingleDot(before, after);
  }
}
