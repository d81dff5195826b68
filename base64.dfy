/** Base 64 as `btoa` produces it (the alphabet of section 4 of RFC 4648, with `=`
    padding), the URL-safe rewriting the script applies to it (the alphabet of
    section 5 of RFC 4648, padding dropped), and a strict decoder used as the
    partner that every encoding is proved against. */
module Base64 {
  import opened Options
  import opened Text

  type byte = b: int | 0 <= b < 256

  /** Value `v` of the 64-character alphabet of RFC 4648, section 4, Table 1. */
  function CharOf(v: int): (c: char)
    requires 0 <= v < 64
  {
    if v < 26 then ('A' as int + v) as char
    else if v < 52 then ('a' as int + (v - 26)) as char
    else if v < 62 then ('0' as int + (v - 52)) as char
    else if v == 62 then '+'
    else '/'
  }

  predicate IsStdChar(c: char) {
    'A' <= c <= 'Z' || 'a' <= c <= 'z' || '0' <= c <= '9' || c == '+' || c == '/'
  }

  /** The inverse lookup in the same table. */
  function ValueOf(c: char): (v: int)
    requires IsStdChar(c)
    ensures 0 <= v < 64
  {
    if 'A' <= c <= 'Z' then c as int - 'A' as int
    else if 'a' <= c <= 'z' then c as int - 'a' as int + 26
    else if '0' <= c <= '9' then c as int - '0' as int + 52
    else if c == '+' then 62
    else 63
  }

  lemma ValueOfCharOf(v: int)
    requires 0 <= v < 64
    ensures IsStdChar(CharOf(v)) && ValueOf(CharOf(v)) == v
  {
  }

  /** Three bytes become four characters, six bits each, most significant first. */
  function EncodeQuantum(b0: byte, b1: byte, b2: byte): string {
    [CharOf(b0 / 4), CharOf((b0 % 4) * 16 + b1 / 16), CharOf((b1 % 16) * 4 + b2 / 64), CharOf(b2 % 64)]
  }

  /** The number of `=` that end the encoding of `n` bytes. */
  function PadCount(n: nat): (p: nat)
    ensures p <= 2
  {
    if n < 3 then (if n == 0 then 0 else 3 - n) else PadCount(n - 3)
  }

  /** The last, partial group without its padding: one byte gives two characters,
      two bytes give three. */
  function EncodeFinal(b: seq<byte>): (r: string)
    requires |b| < 3
    ensures |r| == (if b == [] then 0 else |b| + 1)
  {
    if |b| == 0 then []
    else if |b| == 1 then [CharOf(b[0] / 4), CharOf((b[0] % 4) * 16)]
    else [CharOf(b[0] / 4), CharOf((b[0] % 4) * 16 + b[1] / 16), CharOf((b[1] % 16) * 4)]
  }

  /** The encoding without padding, as section 3.2 of RFC 4648 permits it. */
  function EncodeUnpadded(b: seq<byte>): (r: string)
    decreases |b|
  {
    if |b| < 3 then EncodeFinal(b)
    else EncodeQuantum(b[0], b[1], b[2]) + EncodeUnpadded(b[3..])
  }

  /** `btoa` on the bytes of a binary string: whole quanta, then the final one or two
      bytes padded with `==` or `=` to a whole quantum (RFC 4648, section 4). */
  function Encode(b: seq<byte>): (r: string)
    ensures |r| == 4 * Quanta(|b|)
  {
    UnpaddedLength(b);
    EncodeUnpadded(b) + Repeat('=', PadCount(|b|))
  }

  /** Four six-bit values put back together as three bytes. */
  function Join3(v0: int, v1: int, v2: int, v3: int): seq<byte>
    requires 0 <= v0 < 64 && 0 <= v1 < 64 && 0 <= v2 < 64 && 0 <= v3 < 64
  {
    [v0 * 4 + v1 / 16, (v1 % 16) * 16 + v2 / 4, (v2 % 4) * 64 + v3]
  }

  /** Three six-bit values before one `=`: two bytes. */
  function Join2(v0: int, v1: int, v2: int): seq<byte>
    requires 0 <= v0 < 64 && 0 <= v1 < 64 && 0 <= v2 < 64
  {
    [v0 * 4 + v1 / 16, (v1 % 16) * 16 + v2 / 4]
  }

  /** Two six-bit values before `==`: one byte. */
  function Join1(v0: int, v1: int): seq<byte>
    requires 0 <= v0 < 64 && 0 <= v1 < 64
  {
    [v0 * 4 + v1 / 16]
  }

  /** Decodes one group of four characters; a group with padding yields fewer bytes. */
  function DecodeQuantum(q: string): Option<seq<byte>>
    requires |q| == 4
  {
    if IsStdChar(q[0]) && IsStdChar(q[1]) && IsStdChar(q[2]) && IsStdChar(q[3]) then
      Some(Join3(ValueOf(q[0]), ValueOf(q[1]), ValueOf(q[2]), ValueOf(q[3])))
    else if IsStdChar(q[0]) && IsStdChar(q[1]) && IsStdChar(q[2]) && q[3] == '=' then
      Some(Join2(ValueOf(q[0]), ValueOf(q[1]), ValueOf(q[2])))
    else if IsStdChar(q[0]) && IsStdChar(q[1]) && q[2] == '=' && q[3] == '=' then
      Some(Join1(ValueOf(q[0]), ValueOf(q[1])))
    else None
  }

  /** A strict decoder: whole groups of four, padding only in the last group. */
  function Decode(s: string): Option<seq<byte>>
    decreases |s|
  {
    if s == [] then Some([])
    else if |s| < 4 then None
    else if |s| == 4 then DecodeQuantum(s)
    else if IsStdChar(s[0]) && IsStdChar(s[1]) && IsStdChar(s[2]) && IsStdChar(s[3]) then
      match (DecodeQuantum(s[..4]), Decode(s[4..]))
      case (Some(h), Some(t)) => Some(h + t)
      case _ => None
    else None
  }

  lemma QuantumRoundTrip(g: seq<byte>)
    requires |g| == 3
    ensures DecodeQuantum(EncodeQuantum(g[0], g[1], g[2])) == Some(g)
  {
    QuantumValues(g[0], g[1], g[2]);
    assert g == [g[0], g[1], g[2]];
  }

  lemma QuantumValues(b0: byte, b1: byte, b2: byte)
    ensures DecodeQuantum(EncodeQuantum(b0, b1, b2)) == Some([b0, b1, b2])
  {
    var v0, v1, v2, v3 := b0 / 4, (b0 % 4) * 16 + b1 / 16, (b1 % 16) * 4 + b2 / 64, b2 % 64;
    ValueOfCharOf(v0);
    ValueOfCharOf(v1);
    ValueOfCharOf(v2);
    ValueOfCharOf(v3);
    Split3(b0, b1, b2);
  }

  lemma Split3(b0: byte, b1: byte, b2: byte)
    ensures Join3(b0 / 4, (b0 % 4) * 16 + b1 / 16, (b1 % 16) * 4 + b2 / 64, b2 % 64) == [b0, b1, b2]
  {
    var v1 := (b0 % 4) * 16 + b1 / 16;
    var v2 := (b1 % 16) * 4 + b2 / 64;
    assert v1 / 16 == b0 % 4 && v1 % 16 == b1 / 16;
    assert v2 / 4 == b1 % 16 && v2 % 4 == b2 / 64;
  }

  lemma Split2(b0: byte, b1: byte)
    ensures Join2(b0 / 4, (b0 % 4) * 16 + b1 / 16, (b1 % 16) * 4) == [b0, b1]
  {
    var v1 := (b0 % 4) * 16 + b1 / 16;
    var v2 := (b1 % 16) * 4;
    assert v1 / 16 == b0 % 4 && v1 % 16 == b1 / 16;
    assert v2 / 4 == b1 % 16;
  }

  lemma Split1(b0: byte)
    ensures Join1(b0 / 4, (b0 % 4) * 16) == [b0]
  {
    assert ((b0 % 4) * 16) / 16 == b0 % 4;
  }

  lemma DecodePadded1(c0: char, c1: char)
    requires IsStdChar(c0) && IsStdChar(c1)
    ensures Decode([c0, c1, '=', '=']) == Some(Join1(ValueOf(c0), ValueOf(c1)))
  {
  }

  lemma DecodePadded2(c0: char, c1: char, c2: char)
    requires IsStdChar(c0) && IsStdChar(c1) && IsStdChar(c2)
    ensures Decode([c0, c1, c2, '=']) == Some(Join2(ValueOf(c0), ValueOf(c1), ValueOf(c2)))
  {
  }

  lemma EncodeOne(b0: byte)
    ensures Decode(Encode([b0])) == Some([b0])
  {
    var v0, v1 := b0 / 4, (b0 % 4) * 16;
    ValueOfCharOf(v0);
    ValueOfCharOf(v1);
    assert Encode([b0]) == [CharOf(v0), CharOf(v1), '=', '='];
    DecodePadded1(CharOf(v0), CharOf(v1));
    Split1(b0);
  }

  lemma EncodeTwo(b0: byte, b1: byte)
    ensures Decode(Encode([b0, b1])) == Some([b0, b1])
  {
    var v0, v1, v2 := b0 / 4, (b0 % 4) * 16 + b1 / 16, (b1 % 16) * 4;
    ValueOfCharOf(v0);
    ValueOfCharOf(v1);
    ValueOfCharOf(v2);
    assert Encode([b0, b1]) == [CharOf(v0), CharOf(v1), CharOf(v2), '='];
    DecodePadded2(CharOf(v0), CharOf(v1), CharOf(v2));
    Split2(b0, b1);
  }

  /** Each whole quantum of input puts one group of four characters in front. */
  lemma EncodeQuantumFirst(b: seq<byte>)
    requires |b| >= 3
    ensures Encode(b) == EncodeQuantum(b[0], b[1], b[2]) + Encode(b[3..])
  {
    assert PadCount(|b|) == PadCount(|b[3..]|);
  }

  /** Decoding undoes `btoa`'s encoding. */
  lemma {:induction false} DecodeEncode(b: seq<byte>)
    ensures Decode(Encode(b)) == Some(b)
    decreases |b|
  {
    if |b| == 0 {
      assert Encode(b) == [];
    } else if |b| == 1 {
      assert b == [b[0]];
      EncodeOne(b[0]);
    } else if |b| == 2 {
      assert b == [b[0], b[1]];
      EncodeTwo(b[0], b[1]);
    } else {
      var q := EncodeQuantum(b[0], b[1], b[2]);
      QuantumRoundTrip(b[..3]);
      QuantumStd(b[0], b[1], b[2]);
      DecodeEncode(b[3..]);
      EncodeQuantumFirst(b);
      DecodeAppend(q, Encode(b[3..]), b[..3], b[3..]);
      assert b[..3] + b[3..] == b;
    }
  }

  /** A group of four alphabet characters decodes in front of whatever follows. */
  lemma DecodeAppend(q: string, t: string, g: seq<byte>, rest: seq<byte>)
    requires |q| == 4 && AllStd(q)
    requires DecodeQuantum(q) == Some(g) && Decode(t) == Some(rest)
    ensures Decode(q + t) == Some(g + rest)
  {
    if t == [] {
      assert q + t == q;
      assert g + rest == g;
    } else {
      assert (q + t)[..4] == q && (q + t)[4..] == t;
    }
  }

  predicate AllStd(s: string) {
    forall i | 0 <= i < |s| :: IsStdChar(s[i])
  }

  /** The unpadded encoding uses the alphabet only. */
  lemma {:induction false} UnpaddedStd(b: seq<byte>)
    ensures AllStd(EncodeUnpadded(b))
    decreases |b|
  {
    if |b| == 1 {
      ValueOfCharOf(b[0] / 4);
      ValueOfCharOf((b[0] % 4) * 16);
    } else if |b| == 2 {
      ValueOfCharOf(b[0] / 4);
      ValueOfCharOf((b[0] % 4) * 16 + b[1] / 16);
      ValueOfCharOf((b[1] % 16) * 4);
    } else if |b| >= 3 {
      UnpaddedStd(b[3..]);
      QuantumStd(b[0], b[1], b[2]);
      AllStdAppend(EncodeQuantum(b[0], b[1], b[2]), EncodeUnpadded(b[3..]));
    }
  }

  lemma QuantumStd(b0: byte, b1: byte, b2: byte)
    ensures AllStd(EncodeQuantum(b0, b1, b2))
  {
    ValueOfCharOf(b0 / 4);
    ValueOfCharOf((b0 % 4) * 16 + b1 / 16);
    ValueOfCharOf((b1 % 16) * 4 + b2 / 64);
    ValueOfCharOf(b2 % 64);
  }

  lemma AllStdAppend(a: string, b: string)
    requires AllStd(a) && AllStd(b)
    ensures AllStd(a + b)
  {
  }

  /** The number of quanta in the encoding of `n` bytes. */
  function Quanta(n: nat): nat {
    if n == 0 then 0 else if n < 3 then 1 else 1 + Quanta(n - 3)
  }

  /** Unpadded characters and padding make up whole quanta of four characters. */
  lemma {:induction false} UnpaddedLength(b: seq<byte>)
    ensures |EncodeUnpadded(b)| + PadCount(|b|) == 4 * Quanta(|b|)
    decreases |b|
  {
    if |b| < 3 {
      assert |EncodeUnpadded(b)| + PadCount(|b|) == if b == [] then 0 else 4;
    } else {
      UnpaddedLength(b[3..]);
      var n := |EncodeUnpadded(b[3..])| + PadCount(|b| - 3);
      assert |EncodeUnpadded(b)| + PadCount(|b|) == n + 4;
    }
  }

  /** Over the standard alphabet the two rewritings are inverse to each other, and
      the rewritten string is URL-safe. */
  lemma SubstRoundTrip(body: string)
    requires AllStd(body)
    ensures forall i | 0 <= i < |body| :: IsUrlSafeChar(Subst(Subst(body, '+', '-'), '/', '_')[i])
    ensures Subst(Subst(Subst(Subst(body, '+', '-'), '/', '_'), '-', '+'), '_', '/') == body
  {
  }

  lemma RemovePadding(n: nat)
    requires n <= 2
    ensures RemoveChar(Repeat('=', n), '=') == []
  {
    if n > 0 {
      assert Repeat('=', n)[1..] == Repeat('=', n - 1);
      RemovePadding(n - 1);
    }
  }

  predicate IsUrlSafeChar(c: char) {
    'A' <= c <= 'Z' || 'a' <= c <= 'z' || '0' <= c <= '9' || c == '-' || c == '_'
  }

  /** `.replace(/=/g, '').replace(/\+/g, '-').replace(/\//g, '_')`. */
  function ToUrlSafe(s: string): (r: string)
    ensures |r| <= |s|
    ensures '=' !in r && '+' !in r && '/' !in r
  {
    Subst(Subst(RemoveChar(s, '='), '+', '-'), '/', '_')
  }

  /** The way back to standard base 64: the two characters mapped back and the
      padding restored to a whole number of quanta. */
  function FromUrlSafe(t: string): string {
    Repad(Subst(Subst(t, '-', '+'), '_', '/'))
  }

  /** Appends the fewest `=` that make the length a multiple of four. */
  function Repad(s: string): (r: string)
    ensures |r| % 4 == 0
  {
    var k := |s| % 4;
    RoundUp(|s|);
    s + Repeat('=', if k == 0 then 0 else 4 - k)
  }

  lemma RoundUp(n: nat)
    ensures (n + (if n % 4 == 0 then 0 else 4 - n % 4)) % 4 == 0
  {
    var q, k := n / 4, n % 4;
    assert n == 4 * q + k;
    if k != 0 {
      assert n + (4 - k) == 4 * (q + 1);
    }
  }

  /** The URL-safe form of an encoding holds only `[A-Za-z0-9_-]` and maps back to
      the encoding it came from. */
  lemma UrlSafeEncoding(b: seq<byte>)
    ensures forall i | 0 <= i < |ToUrlSafe(Encode(b))| :: IsUrlSafeChar(ToUrlSafe(Encode(b))[i])
    ensures FromUrlSafe(ToUrlSafe(Encode(b))) == Encode(b)
  {
    var body := EncodeUnpadded(b);
    var p := PadCount(|b|);
    UnpaddedStd(b);
    UnpaddedLength(b);
    DropPadding(body, p);
    var u := Subst(Subst(body, '+', '-'), '/', '_');
    assert ToUrlSafe(Encode(b)) == u;
    SubstRoundTrip(body);
    RestorePadding(body, p, Quanta(|b|));
    assert Subst(Subst(u, '-', '+'), '_', '/') == body;
  }

  /** Removing `=` from an alphabet run followed by padding leaves the run. */
  lemma DropPadding(body: string, p: nat)
    requires AllStd(body) && p <= 2
    ensures RemoveChar(body + Repeat('=', p), '=') == body
  {
    RemoveCharAppend(body, Repeat('=', p), '=');
    RemovePadding(p);
    assert '=' !in body;
  }

  lemma RestorePadding(s: string, p: nat, q: nat)
    requires p <= 2 && |s| + p == 4 * q
    ensures Repad(s) == s + Repeat('=', p)
  {
    if p == 0 {
      assert |s| % 4 == 0;
    } else {
      assert |s| == 4 * (q - 1) + (4 - p);
      assert |s| % 4 == 4 - p;
    }
  }



  /** A string `btoa` accepts: every code unit fits in one byte. */
  predicate IsBinaryString(s: string) {
    forall i | 0 <= i < |s| :: s[i] as int < 256
  }

  function ToBytes(s: string): (b: seq<byte>)
    requires IsBinaryString(s)
    ensures |b| == |s|
  {
    seq(|s|, i requires 0 <= i < |s| => s[i] as int)
  }

  function FromBytes(b: seq<byte>): string {
    seq(|b|, i requires 0 <= i < |b| => b[i] as char)
  }

  /** `btoa(s)`. */
  function Btoa(s: string): (r: string)
    requires IsBinaryString(s)
    ensures |r| == 4 * Quanta(|s|)
  {
    Encode(ToBytes(s))
  }

  /** Strict `atob`: the string whose bytes the input encodes, if it is well formed. */
  function Atob(s: string): Option<string> {
    match Decode(s)
    case Some(b) => Some(FromBytes(b))
    case None => None
  }

  /** `btoa` followed by the URL-safe rewriting, as the script writes it twice. */
  function Base64Url(s: string): string
    requires IsBinaryString(s)
  {
    ToUrlSafe(Btoa(s))
  }

  /** The token is URL-safe, and restoring the standard alphabet and padding then
      decoding gives back exactly the string that was encoded. */
  lemma Base64UrlRoundTrip(s: string)
    requires IsBinaryString(s)
    ensures forall i | 0 <= i < |Base64Url(s)| :: IsUrlSafeChar(Base64Url(s)[i])
    ensures Atob(FromUrlSafe(Base64Url(s))) == Some(s)
  {
    UrlSafeEncoding(ToBytes(s));
    DecodeEncode(ToBytes(s));
    assert FromBytes(ToBytes(s)) == s;
  }
}
