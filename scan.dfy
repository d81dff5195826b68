/** The two loops of the scan form's submit handler: the bounded re-resolution of
    the host's address (scripts/script.js:109-120) and the tally of the threat
    patterns that match the scanned URL (scripts/script.js:137-164).

    The DNS lookup, `atob` on the patterns the service sends, and the regular
    expression engine are outside the model; they enter as function parameters. */
module Scan {
  import opened Options
  import opened Text
  import opened IPv4

  // ---- Bounded re-resolution ----

  /** `isValidIP(ipaddress)` for a lookup answer; a failed lookup (`null`) is
      tested as the text `"null"`, which never matches. */
  predicate ValidAnswer(ip: Option<string>) {
    ip.Some? && IsValidIP(ip.value)
  }

  /** The answer of the `k`-th lookup (`k >= 1`) when the first asks about `host`
      and each later one asks about the previous answer; `resolve(j, d)` is what the
      lookup numbered `j` (from 0) answers for `d`. */
  function Answer(host: Option<string>, resolve: (nat, Option<string>) -> Option<string>, k: nat): Option<string>
    requires k >= 1
  {
    if k == 1 then resolve(0, host) else resolve(k - 1, Answer(host, resolve, k - 1))
  }

  /** The address lookup of the handler: one lookup, then further lookups while the
      answer is not a valid address, stopping after the sixth lookup in all — the
      counter is tested only after each further lookup, so five of them happen
      before the `break`. */
  method ResolveUntilValid(host: Option<string>, resolve: (nat, Option<string>) -> Option<string>)
    returns (ip: Option<string>, calls: nat)
    ensures 1 <= calls <= 6
    ensures ip == Answer(host, resolve, calls)
    ensures forall j | 1 <= j < calls :: !ValidAnswer(Answer(host, resolve, j))
    ensures calls < 6 ==> ValidAnswer(ip)
  {
    ip := resolve(0, host);
    calls := 1;
    var ipValidationCount := 0;
    while !ValidAnswer(ip)
      invariant ipValidationCount <= 4 && calls == ipValidationCount + 1
      invariant ip == Answer(host, resolve, calls)
      invariant forall j | 1 <= j < calls :: !ValidAnswer(Answer(host, resolve, j))
      decreases 4 - ipValidationCount
    {
      ip := resolve(calls, ip);
      calls := calls + 1;
      if ipValidationCount > 3 {
        break;
      }
      ipValidationCount := ipValidationCount + 1;
    }
  }

  /** The number of lookups the handler makes: the first valid answer among the
      first six, or six. */
  function LookupsNeeded(host: Option<string>, resolve: (nat, Option<string>) -> Option<string>, k: nat): (n: nat)
    requires 1 <= k <= 6
    ensures k <= n <= 6
    decreases 6 - k
  {
    if k == 6 || ValidAnswer(Answer(host, resolve, k)) then k else LookupsNeeded(host, resolve, k + 1)
  }

  /** The contract of `ResolveUntilValid` fixes the number of lookups: it is the
      position of the first valid answer, capped at six. */
  lemma {:induction false} LookupsDetermined(host: Option<string>, resolve: (nat, Option<string>) -> Option<string>, calls: nat, k: nat)
    requires 1 <= k <= calls <= 6
    requires forall j | 1 <= j < calls :: !ValidAnswer(Answer(host, resolve, j))
    requires calls < 6 ==> ValidAnswer(Answer(host, resolve, calls))
    ensures calls == LookupsNeeded(host, resolve, k)
    decreases 6 - k
  {
    if k < calls {
      LookupsDetermined(host, resolve, calls, k + 1);
    }
  }

  // ---- Pattern tally ----

  /** One entry of `data.patterns`: the base 64 `pattern` and the optional
      `n_type` and `type` labels. A `null` entry is `None` in the sequence of
      entries. */
  datatype PatternEntry = PatternEntry(pattern: string, nType: Option<string>, typ: Option<string>)

  /** A label is truthy when it is present and not the empty string. */
  predicate Truthy(s: Option<string>) {
    s.Some? && s.value != []
  }

  /** `patternObj.n_type || patternObj.type || "unknown"`. */
  function Label(e: PatternEntry): (l: string)
    ensures l != []
    ensures Truthy(e.nType) ==> l == e.nType.value
    ensures !Truthy(e.nType) && Truthy(e.typ) ==> l == e.typ.value
    ensures !Truthy(e.nType) && !Truthy(e.typ) ==> l == "unknown"
  {
    if Truthy(e.nType) then e.nType.value else if Truthy(e.typ) then e.typ.value else "unknown"
  }

  /** A leading `(?i)` comes off once and turns into the `i` flag. */
  function StripFlags(pattern: string): (r: (string, string))
    ensures StartsWith(pattern, "(?i)") ==> r == (pattern[4..], "i")
    ensures !StartsWith(pattern, "(?i)") ==> r == (pattern, "")
    ensures |r.0| + |r.1| * 4 == |pattern|
  {
    if StartsWith(pattern, "(?i)") then (pattern[4..], "i") else (pattern, "")
  }

  /** The label an entry contributes, if any: `None` when its pattern does not
      decode, does not compile (`test` gives `None`) or does not match `url`. */
  function Contribution(e: PatternEntry, url: string,
                        decode: string -> Option<string>,
                        test: (string, string, string) -> Option<bool>): Option<string>
  {
    match decode(e.pattern)
    case None => None
    case Some(p) =>
      var (source, flags) := StripFlags(p);
      if test(source, flags, url) == Some(true) then Some(Label(e)) else None
  }

  /** The labels collected from `entries`, in order, or `None` when the tally is
      aborted: a `null` entry (`None`) makes `patternObj.pattern` throw, and the
      `catch` meant to skip it reads `patternObj.pattern` again and throws too, so
      the error leaves the `forEach`. */
  function MatchedLabels(entries: seq<Option<PatternEntry>>, url: string,
                         decode: string -> Option<string>,
                         test: (string, string, string) -> Option<bool>): (labels: Option<seq<string>>)
    ensures labels.Some? <==> None !in entries
    ensures labels.Some? ==> |labels.value| <= |entries|
    ensures labels.Some? ==> forall k | 0 <= k < |labels.value| :: labels.value[k] != []
  {
    if entries == [] then Some([])
    else
      var init := MatchedLabels(entries[..|entries| - 1], url, decode, test);
      var last := entries[|entries| - 1];
      assert entries == entries[..|entries| - 1] + [last];
      if init.None? || last.None? then None
      else
        match Contribution(last.value, url, decode, test)
        case None => init
        case Some(l) => Some(init.value + [l])
  }

  /** The tally of the handler: `matchCount` and `matchedTypes` after the `forEach`
      over `data.patterns`, which is skipped when it is not an array (`None`).
      `aborted` is set when a `null` entry throws out of the `forEach`; the counts
      are then those of the entries before it. */
  method TallyPatterns(patterns: Option<seq<Option<PatternEntry>>>, url: string,
                       decode: string -> Option<string>,
                       test: (string, string, string) -> Option<bool>)
    returns (aborted: bool, matchCount: nat, matchedTypes: seq<string>)
    ensures matchCount == |matchedTypes|
    ensures aborted <==> patterns.Some? && None in patterns.value
    ensures patterns.None? ==> matchedTypes == []
    ensures patterns.Some? && !aborted ==> MatchedLabels(patterns.value, url, decode, test) == Some(matchedTypes)
    ensures aborted ==> exists i | 0 <= i < |patterns.value| ::
      patterns.value[i].None? && MatchedLabels(patterns.value[..i], url, decode, test) == Some(matchedTypes)
    ensures patterns.Some? ==> matchCount <= |patterns.value|
  {
    aborted := false;
    matchCount := 0;
    matchedTypes := [];
    if patterns.Some? {
      var ps := patterns.value;
      for i := 0 to |ps|
        invariant matchCount == |matchedTypes|
        invariant MatchedLabels(ps[..i], url, decode, test) == Some(matchedTypes)
      {
        assert ps[..i + 1][..i] == ps[..i] && ps[..i + 1][i] == ps[i];
        if ps[i].None? {
          aborted := true;
          return;
        }
        var decoded := decode(ps[i].value.pattern);
        if decoded.Some? {
          var pattern := decoded.value;
          var flags := "";
          if StartsWith(pattern, "(?i)") {
            pattern := pattern[4..];
            flags := flags + "i";
            assert flags == "i";
          }
          assert (pattern, flags) == StripFlags(decoded.value);
          var matched := test(pattern, flags, url);
          if matched == Some(true) {
            matchCount := matchCount + 1;
            matchedTypes := matchedTypes + [Label(ps[i].value)];
          }
        }
      }
      assert ps[..|ps|] == ps;
    }
  }

  /** The tally of two runs of entries is the tally of each, in order; it is
      aborted when either run holds a `null` entry. */
  lemma {:induction false} MatchedLabelsAppend(a: seq<Option<PatternEntry>>, b: seq<Option<PatternEntry>>, url: string,
                                               decode: string -> Option<string>,
                                               test: (string, string, string) -> Option<bool>)
    ensures var la, lb := MatchedLabels(a, url, decode, test), MatchedLabels(b, url, decode, test);
      MatchedLabels(a + b, url, decode, test) == (if la.Some? && lb.Some? then Some(la.value + lb.value) else None)
    decreases |b|
  {
    if b == [] {
      assert a + b == a;
      var la := MatchedLabels(a, url, decode, test);
      if la.Some? {
        assert la.value + [] == la.value;
      }
    } else {
      var b' := b[..|b| - 1];
      assert (a + b)[..|a + b| - 1] == a + b';
      assert (a + b)[|a + b| - 1] == b[|b| - 1];
      MatchedLabelsAppend(a, b', url, decode, test);
      var la, lb' := MatchedLabels(a, url, decode, test), MatchedLabels(b', url, decode, test);
      if la.Some? && lb'.Some? && b[|b| - 1].Some? {
        var c := Contribution(b[|b| - 1].value, url, decode, test);
        if c.Some? {
          assert la.value + (lb'.value + [c.value]) == la.value + lb'.value + [c.value];
        }
      }
    }
  }

  /** A `null` entry anywhere aborts the whole tally, whatever the other entries. */
  lemma NullEntryAborts(ps: seq<Option<PatternEntry>>, qs: seq<Option<PatternEntry>>, url: string,
                        decode: string -> Option<string>,
                        test: (string, string, string) -> Option<bool>)
    ensures MatchedLabels(ps + [None] + qs, url, decode, test) == None
  {
    assert (ps + [None] + qs)[|ps|] == None;
  }

  /** An entry whose pattern does not decode or does not compile adds nothing. */
  lemma InvalidPatternAddsNothing(ps: seq<Option<PatternEntry>>, e: PatternEntry, url: string,
                                  decode: string -> Option<string>,
                                  test: (string, string, string) -> Option<bool>)
    requires decode(e.pattern).None? ||
      var (source, flags) := StripFlags(decode(e.pattern).value); test(source, flags, url).None?
    ensures MatchedLabels(ps + [Some(e)], url, decode, test) == MatchedLabels(ps, url, decode, test)
  {
    assert (ps + [Some(e)])[..|ps|] == ps;
  }

  /** An entry that matches adds its label at the end of a tally that was not
      aborted. */
  lemma MatchingPatternAddsLabel(ps: seq<Option<PatternEntry>>, e: PatternEntry, url: string,
                                 decode: string -> Option<string>,
                                 test: (string, string, string) -> Option<bool>)
    requires decode(e.pattern).Some?
    requires var (source, flags) := StripFlags(decode(e.pattern).value); test(source, flags, url) == Some(true)
    ensures var before := MatchedLabels(ps, url, decode, test);
      MatchedLabels(ps + [Some(e)], url, decode, test) == (if before.Some? then Some(before.value + [Label(e)]) else None)
  {
    assert (ps + [Some(e)])[..|ps|] == ps;
  }

  /** Only the first `(?i)` is removed: the pattern `(?i)(?i)a` is compiled as
      `(?i)a` with the `i` flag. */
  lemma StripFlagsOnce(q: string)
    ensures StripFlags("(?i)" + q) == (q, "i")
    ensures !StartsWith(q, "(?i)") ==> StripFlags(q) == (q, "")
  {
    var p := "(?i)" + q;
    assert p[..4] == "(?i)" && p[4..] == q;
  }
}
