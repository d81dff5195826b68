/** `isValidIP` (scripts/script.js:52-55) and the reading of a dotted quad as a
    32-bit address. */
module IPv4 {
  import opened Text

  /** `[01]?[0-9][0-9]?`: a digit with an optional leading `0` or `1` and an
      optional trailing digit. Two digits match whether the first is read as
      `[01]` or as `[0-9]`, so any two digits do. */
  predicate ShortOctet(g: string) {
    (|g| == 1 && IsDigit(g[0]))
    || (|g| == 2 && IsDigit(g[0]) && IsDigit(g[1]))
    || (|g| == 3 && (g[0] == '0' || g[0] == '1') && IsDigit(g[1]) && IsDigit(g[2]))
  }

  /** One group of the regex, alternative by alternative:
      `25[0-5]`, `2[0-4][0-9]`, `[01]?[0-9][0-9]?`. */
  predicate OctetPattern(g: string) {
    (|g| == 3 && g[0] == '2' && g[1] == '5' && '0' <= g[2] <= '5')
    || (|g| == 3 && g[0] == '2' && '0' <= g[1] <= '4' && IsDigit(g[2]))
    || ShortOctet(g)
  }

  /** The anchored regex `^G\.G\.G\.G$` for the group `G` above. No group can
      contain a `.`, so a match is exactly a split on `.` into four pieces that
      each match the group (see `RegexShape`). */
  predicate IsValidIP(s: string) {
    var parts := Split(s, '.');
    |parts| == 4 && forall k | 0 <= k < 4 :: OctetPattern(parts[k])
  }

  /** A decimal octet as the characterization states it: one to three digits,
      leading zeros allowed, value at most 255. */
  predicate DecimalOctet(g: string) {
    1 <= |g| <= 3 && IsDigits(g) && DecimalValue(g) <= 255
  }

  lemma DigitsOfThree(g: string)
    requires |g| == 3 && IsDigits(g)
    ensures DecimalValue(g) == 100 * (g[0] as int - '0' as int) + 10 * (g[1] as int - '0' as int) + (g[2] as int - '0' as int)
  {
    var a, b := g[..1], g[..2];
    assert a[..0] == [] && b[..1] == a && g[..2] == b;
    assert DecimalValue(a) == g[0] as int - '0' as int;
    assert DecimalValue(b) == 10 * DecimalValue(a) + (g[1] as int - '0' as int);
  }

  lemma DigitsOfTwo(g: string)
    requires |g| == 2 && IsDigits(g)
    ensures DecimalValue(g) == 10 * (g[0] as int - '0' as int) + (g[1] as int - '0' as int)
  {
    var a := g[..1];
    assert a[..0] == [] && g[..1] == a;
    assert DecimalValue(a) == g[0] as int - '0' as int;
  }

  /** The regex group accepts exactly the decimal octets. */
  lemma OctetPatternIff(g: string)
    ensures OctetPattern(g) <==> DecimalOctet(g)
  {
    if |g| == 3 && IsDigits(g) {
      DigitsOfThree(g);
    } else if |g| == 2 && IsDigits(g) {
      DigitsOfTwo(g);
    } else if |g| == 1 && IsDigits(g) {
      assert DecimalValue(g) == g[0] as int - '0' as int;
    }
    if OctetPattern(g) {
      assert forall i | 0 <= i < |g| :: IsDigit(g[i]);
    }
  }

  /** `isValidIP(s)` holds exactly when `s` is four `.`-separated groups, each of one
      to three decimal digits with value at most 255. */
  lemma ValidIPIff(s: string)
    ensures IsValidIP(s) <==>
      var parts := Split(s, '.');
      |parts| == 4 && forall k | 0 <= k < 4 :: DecimalOctet(parts[k])
  {
    var parts := Split(s, '.');
    forall k | 0 <= k < |parts| ensures OctetPattern(parts[k]) <==> DecimalOctet(parts[k]) {
      OctetPatternIff(parts[k]);
    }
  }

  /** Four dot-free groups joined by dots split back into those groups. */
  lemma SplitFour(g0: string, g1: string, g2: string, g3: string)
    requires '.' !in g0 && '.' !in g1 && '.' !in g2 && '.' !in g3
    ensures Split(g0 + "." + g1 + "." + g2 + "." + g3, '.') == [g0, g1, g2, g3]
  {
    var t2 := g2 + "." + g3;
    var t1 := g1 + "." + t2;
    var t0 := g0 + "." + t1;
    assert t0 == g0 + "." + g1 + "." + g2 + "." + g3;
    SplitNoSeparator(g3, '.');
    SplitAppend(g2, g3, '.');
    assert Split(t2, '.') == [g2, g3];
    SplitAppend(g1, t2, '.');
    assert Split(t1, '.') == [g1, g2, g3];
    SplitAppend(g0, t1, '.');
  }

  /** The regex matches `g0.g1.g2.g3` exactly when every group does. */
  lemma RegexShape(g0: string, g1: string, g2: string, g3: string)
    requires '.' !in g0 && '.' !in g1 && '.' !in g2 && '.' !in g3
    ensures IsValidIP(g0 + "." + g1 + "." + g2 + "." + g3) <==>
      OctetPattern(g0) && OctetPattern(g1) && OctetPattern(g2) && OctetPattern(g3)
  {
    SplitFour(g0, g1, g2, g3);
    var parts := Split(g0 + "." + g1 + "." + g2 + "." + g3, '.');
    assert parts[0] == g0 && parts[1] == g1 && parts[2] == g2 && parts[3] == g3;
    if OctetPattern(g0) && OctetPattern(g1) && OctetPattern(g2) && OctetPattern(g3) {
      assert forall k | 0 <= k < 4 :: OctetPattern(parts[k]);
    }
  }

  /** The four octet values of a valid address, as `parseInt` reads each group. */
  function Octets(ip: string): (o: seq<nat>)
    requires IsValidIP(ip)
    ensures |o| == 4 && forall k | 0 <= k < 4 :: o[k] < 256
  {
    var parts := Split(ip, '.');
    ValidIPIff(ip);
    seq(4, k requires 0 <= k < 4 => DecimalValue(parts[k]))
  }

  /** The 32-bit value of a valid address, first octet most significant. */
  function Address(ip: string): (a: nat)
    requires IsValidIP(ip)
    ensures a < 0x1_0000_0000
  {
    var o := Octets(ip);
    ((o[0] * 256 + o[1]) * 256 + o[2]) * 256 + o[3]
  }

  /** The octets of a valid `g0.g1.g2.g3` are the decimal values of its groups,
      so its address reads the groups as base-256 digits, first group most
      significant. */
  lemma AddressOfGroups(g0: string, g1: string, g2: string, g3: string)
    requires '.' !in g0 && '.' !in g1 && '.' !in g2 && '.' !in g3
    requires IsValidIP(g0 + "." + g1 + "." + g2 + "." + g3)
    ensures IsDigits(g0) && IsDigits(g1) && IsDigits(g2) && IsDigits(g3)
    ensures var ip := g0 + "." + g1 + "." + g2 + "." + g3;
      Octets(ip) == [DecimalValue(g0), DecimalValue(g1), DecimalValue(g2), DecimalValue(g3)]
  {
    SplitFour(g0, g1, g2, g3);
    OctetsOf(g0 + "." + g1 + "." + g2 + "." + g3, [g0, g1, g2, g3]);
  }

  lemma OctetsOf(ip: string, parts: seq<string>)
    requires IsValidIP(ip) && Split(ip, '.') == parts
    ensures |parts| == 4 && forall k | 0 <= k < 4 :: IsDigits(parts[k])
    ensures Octets(ip) == [DecimalValue(parts[0]), DecimalValue(parts[1]), DecimalValue(parts[2]), DecimalValue(parts[3])]
  {
    ValidIPIff(ip);
  }

  lemma ValidExamples()
    ensures IsValidIP("0.0.0.0")
    ensures IsValidIP("255.255.255.255")
  {
    RegexShape("0", "0", "0", "0");
    assert "0" + "." + "0" + "." + "0" + "." + "0" == "0.0.0.0";
    RegexShape("255", "255", "255", "255");
    assert "255" + "." + "255" + "." + "255" + "." + "255" == "255.255.255.255";
  }

  lemma InvalidGroupExamples()
    ensures !IsValidIP("256.1.1.1")
    ensures !IsValidIP("abc.1.1.1")
  {
    RegexShape("256", "1", "1", "1");
    assert "256" + "." + "1" + "." + "1" + "." + "1" == "256.1.1.1";
    RegexShape("abc", "1", "1", "1");
    assert "abc" + "." + "1" + "." + "1" + "." + "1" == "abc.1.1.1";
  }

  lemma WrongGroupCountExamples()
    ensures !IsValidIP("1.1.1")
    ensures !IsValidIP("1.1.1.1.1")
  {
    SplitNoSeparator("1", '.');
    SplitAppend("1", "1", '.');
    assert "1" + "." + "1" == "1.1";
    SplitAppend("1", "1.1", '.');
    assert "1" + "." + "1.1" == "1.1.1";
    assert |Split("1.1.1", '.')| == 3;
    SplitAppend("1", "1.1.1", '.');
    assert "1" + "." + "1.1.1" == "1.1.1.1";
    SplitAppend("1", "1.1.1.1", '.');
    assert "1" + "." + "1.1.1.1" == "1.1.1.1.1";
    assert |Split("1.1.1.1.1", '.')| == 5;
  }
}
