/** `getCIDRPrefix` (scripts/script.js:63-78): the prefix length of the
    smallest CIDR block that holds both ends of a netblock. */
module Cidr {
  import opened Text
  import opened IPv4

  function Pow2(n: nat): (p: nat)
    ensures p >= 1
  {
    if n == 0 then 1 else 2 * Pow2(n - 1)
  }

  /** `x >>> k`: the value with its low `k` bits dropped. */
  function Shr(x: nat, k: nat): nat {
    if k == 0 then x else Shr(x / 2, k - 1)
  }

  function BitChar(b: nat): char
    requires b < 2
  {
    if b == 0 then '0' else '1'
  }

  /** The low `w` bits of `v` as a string of `0`s and `1`s, most significant first. */
  function Bits(v: nat, w: nat): (r: string)
    ensures |r| == w
  {
    if w == 0 then [] else Bits(v / 2, w - 1) + [BitChar(v % 2)]
  }

  /** `v.toString(2)`: the binary digits of `v` without leading zeros (`"0"` for zero). */
  function ToBinary(v: nat): (r: string)
    ensures |r| >= 1
  {
    if v < 2 then [BitChar(v)] else ToBinary(v / 2) + [BitChar(v % 2)]
  }

  /** `s.padStart(n, c)`: `s` preceded by enough copies of `c` to reach length `n`. */
  function PadStart(s: string, n: nat, c: char): (r: string)
    ensures |s| < n ==> |r| == n && r[n - |s|..] == s
    ensures |s| >= n ==> r == s
  {
    if |s| < n then Repeat(c, n - |s|) + s else s
  }

  /** One group in binary: `parseInt(octet).toString(2).padStart(8, '0')`. */
  function OctetBits(g: string): string
    requires IsDigits(g)
  {
    PadStart(ToBinary(DecimalValue(g)), 8, '0')
  }

  /** `ipToBinary`: the groups of a valid address in binary, concatenated. */
  function IpToBinary(ip: string): string
    requires IsValidIP(ip)
  {
    var parts := Split(ip, '.');
    ValidIPIff(ip);
    var bins := seq(|parts|, k requires 0 <= k < |parts| => OctetBits(parts[k]));
    Join(bins, "")
  }

  /** The two 32-bit addresses lie in the same block of prefix length `n`:
      they agree on their top `n` bits. */
  predicate SameBlock(x: nat, y: nat, n: nat)
    requires n <= 32
  {
    Shr(x, 32 - n) == Shr(y, 32 - n)
  }

  /** The longest common prefix of two 32-bit addresses: the largest `n` for which
      they lie in the same block. */
  function PrefixLength(x: nat, y: nat): (n: nat)
    requires x < 0x1_0000_0000 && y < 0x1_0000_0000
    ensures n <= 32 && SameBlock(x, y, n)
    ensures n < 32 ==> !SameBlock(x, y, n + 1)
  {
    WordShrBound(x, 0);
    WordShrBound(y, 0);
    LongestBlock(x, y, 32)
  }

  /** The largest `n <= m` for which the addresses lie in the same block. */
  function LongestBlock(x: nat, y: nat, m: nat): (n: nat)
    requires m <= 32 && SameBlock(x, y, 0)
    ensures n <= m && SameBlock(x, y, n)
    ensures n < m ==> !SameBlock(x, y, n + 1)
  {
    if m == 0 || SameBlock(x, y, m) then m else LongestBlock(x, y, m - 1)
  }

  // ---- Arithmetic facts about bits and shifts ----

  lemma {:induction false} ShrBound(x: nat, m: nat, k: nat)
    requires x < Pow2(m + k)
    ensures Shr(x, k) < Pow2(m)
  {
    if k > 0 {
      ShrBound(x / 2, m, k - 1);
    }
  }

  /** The top `n` bits of a 32-bit value fit in `n` bits. */
  lemma WordShrBound(x: nat, n: nat)
    requires x < 0x1_0000_0000 && n <= 32
    ensures Shr(x, 32 - n) < Pow2(n)
  {
    Pow2Values();
    ShrBound(x, n, 32 - n);
  }

  lemma {:induction false} ShrShr(x: nat, i: nat, j: nat)
    ensures Shr(Shr(x, i), j) == Shr(x, i + j)
  {
    if i > 0 {
      ShrShr(x / 2, i - 1, j);
    }
  }

  /** The first `i` of the `w` low bits of `v` are the bits of `v` shifted right by `w - i`. */
  lemma {:induction false} BitsPrefix(v: nat, w: nat, i: nat)
    requires i <= w
    ensures Bits(v, w)[..i] == Bits(Shr(v, w - i), i)
  {
    if i < w {
      BitsPrefix(v / 2, w - 1, i);
      assert Bits(v, w)[..i] == Bits(v / 2, w - 1)[..i];
    }
  }

  /** Below `Pow2(w)`, different values have different `w`-bit strings. */
  lemma {:induction false} BitsInjective(a: nat, b: nat, w: nat)
    requires a < Pow2(w) && b < Pow2(w)
    requires Bits(a, w) == Bits(b, w)
    ensures a == b
  {
    if w > 0 {
      var ra, rb := Bits(a / 2, w - 1), Bits(b / 2, w - 1);
      assert Bits(a, w)[..w - 1] == ra && Bits(b, w)[..w - 1] == rb;
      assert Bits(a, w)[w - 1] == BitChar(a % 2) && Bits(b, w)[w - 1] == BitChar(b % 2);
      BitsInjective(a / 2, b / 2, w - 1);
    }
  }

  lemma {:induction false} BitsZero(k: nat)
    ensures Bits(0, k) == Repeat('0', k)
  {
    if k > 0 {
      BitsZero(k - 1);
      RepeatSnoc(k - 1);
    }
  }

  lemma {:induction false} RepeatSnoc(k: nat)
    ensures Repeat('0', k) + ['0'] == Repeat('0', k + 1)
  {
    if k > 0 {
      RepeatSnoc(k - 1);
    }
  }

  /** Widening a value that fits in `m` bits prefixes zeros. */
  lemma {:induction false} BitsWiden(v: nat, m: nat, k: nat)
    requires v < Pow2(m)
    ensures Bits(v, k + m) == Repeat('0', k) + Bits(v, m)
  {
    if m == 0 {
      BitsZero(k);
    } else {
      BitsWiden(v / 2, m - 1, k);
    }
  }

  lemma {:induction false} ToBinaryIsBits(v: nat)
    ensures v < Pow2(|ToBinary(v)|)
    ensures ToBinary(v) == Bits(v, |ToBinary(v)|)
  {
    if v >= 2 {
      ToBinaryIsBits(v / 2);
    }
  }

  lemma {:induction false} ToBinaryLength(v: nat, w: nat)
    requires 1 <= w && v < Pow2(w)
    ensures |ToBinary(v)| <= w
  {
    if v >= 2 {
      ToBinaryLength(v / 2, w - 1);
    }
  }

  /** Padding `toString(2)` to `w` digits gives the `w`-bit string of the value. */
  lemma PaddedBinary(v: nat, w: nat)
    requires 1 <= w && v < Pow2(w)
    ensures PadStart(ToBinary(v), w, '0') == Bits(v, w)
  {
    ToBinaryIsBits(v);
    ToBinaryLength(v, w);
    var t := ToBinary(v);
    if |t| < w {
      BitsWiden(v, |t|, w - |t|);
    }
  }

  lemma {:induction false} HalfStep(a: nat, b: nat, k: nat)
    requires k >= 1
    ensures (a * Pow2(k) + b) / 2 == a * Pow2(k - 1) + b / 2
    ensures (a * Pow2(k) + b) % 2 == b % 2
  {
    var c := a * Pow2(k - 1);
    assert a * Pow2(k) == 2 * c;
  }

  /** The bits of `a * 2^k + b` are those of `a` followed by the `k` bits of `b`. */
  lemma {:induction false} BitsConcat(a: nat, b: nat, w: nat, k: nat)
    requires b < Pow2(k)
    ensures Bits(a * Pow2(k) + b, w + k) == Bits(a, w) + Bits(b, k)
  {
    if k > 0 {
      HalfStep(a, b, k);
      BitsConcat(a, b / 2, w, k - 1);
    }
  }

  lemma Pow2Values()
    ensures Pow2(8) == 256 && Pow2(32) == 0x1_0000_0000
  {
    assert Pow2(8) == 256;
    assert Pow2(16) == Pow2(8) * Pow2(8) by { Pow2Add(8, 8); }
    assert Pow2(32) == Pow2(16) * Pow2(16) by { Pow2Add(16, 16); }
  }

  lemma {:induction false} Pow2Add(a: nat, b: nat)
    ensures Pow2(a + b) == Pow2(a) * Pow2(b)
  {
    if a > 0 {
      Pow2Add(a - 1, b);
    }
  }

  /** A group's binary form is its value's 8-bit string. */
  lemma OctetBitsIsBits(g: string)
    requires DecimalOctet(g)
    ensures OctetBits(g) == Bits(DecimalValue(g), 8)
  {
    Pow2Values();
    PaddedBinary(DecimalValue(g), 8);
  }

  lemma BitsByte(a: nat, b: nat, x: nat, w: nat)
    requires b < 256 && x == a * 256 + b
    ensures Bits(x, w + 8) == Bits(a, w) + Bits(b, 8)
  {
    assert Pow2(8) == 256;
    BitsConcat(a, b, w, 8);
  }

  /** The 32 bits of a base-256 quad are its four 8-bit digits in order. */
  lemma BitsOfQuad(o0: nat, o1: nat, o2: nat, o3: nat, x01: nat, x012: nat, x: nat)
    requires o0 < 256 && o1 < 256 && o2 < 256 && o3 < 256
    requires x01 == o0 * 256 + o1 && x012 == x01 * 256 + o2 && x == x012 * 256 + o3
    ensures Bits(x, 32) == Bits(o0, 8) + Bits(o1, 8) + Bits(o2, 8) + Bits(o3, 8)
  {
    BitsByte(o0, o1, x01, 8);
    BitsByte(x01, o2, x012, 16);
    BitsByte(x012, o3, x, 24);
  }

  /** `ipToBinary` of a valid address is its 32-bit value written in binary. */
  lemma IpToBinaryIsBits(ip: string)
    requires IsValidIP(ip)
    ensures IpToBinary(ip) == Bits(Address(ip), 32)
  {
    var parts := Split(ip, '.');
    ValidIPIff(ip);
    var o := Octets(ip);
    var bins := seq(|parts|, k requires 0 <= k < |parts| => OctetBits(parts[k]));
    forall k | 0 <= k < 4 ensures bins[k] == Bits(o[k], 8) {
      OctetBitsIsBits(parts[k]);
    }
    JoinFour(bins);
    var x01 := o[0] * 256 + o[1];
    var x012 := x01 * 256 + o[2];
    BitsOfQuad(o[0], o[1], o[2], o[3], x01, x012, Address(ip));
  }

  /** Two addresses agree on their first `n` binary digits exactly when they lie
      in the same block of prefix length `n`. */
  lemma SameBlockIffBitsAgree(x: nat, y: nat, n: nat)
    requires x < 0x1_0000_0000 && y < 0x1_0000_0000 && n <= 32
    ensures SameBlock(x, y, n) <==> Bits(x, 32)[..n] == Bits(y, 32)[..n]
  {
    BitsPrefix(x, 32, n);
    BitsPrefix(y, 32, n);
    if Bits(x, 32)[..n] == Bits(y, 32)[..n] {
      WordShrBound(x, n);
      WordShrBound(y, n);
      BitsInjective(Shr(x, 32 - n), Shr(y, 32 - n), n);
    }
  }

  /** Sharing a block of length `n` implies sharing every shorter one. */
  lemma SameBlockMonotone(x: nat, y: nat, m: nat, n: nat)
    requires m <= n <= 32 && SameBlock(x, y, n)
    ensures SameBlock(x, y, m)
  {
    ShrShr(x, 32 - n, n - m);
    ShrShr(y, 32 - n, n - m);
  }

  /** `PrefixLength` is the only length at which the addresses share a block but not
      the next longer one. */
  lemma PrefixLengthUnique(x: nat, y: nat, n: nat)
    requires x < 0x1_0000_0000 && y < 0x1_0000_0000 && n <= 32
    ensures n == PrefixLength(x, y) <==> SameBlock(x, y, n) && (n < 32 ==> !SameBlock(x, y, n + 1))
  {
    var p := PrefixLength(x, y);
    if SameBlock(x, y, n) && (n < 32 ==> !SameBlock(x, y, n + 1)) {
      if n < p {
        SameBlockMonotone(x, y, n + 1, p);
      } else if p < n {
        SameBlockMonotone(x, y, p + 1, n);
      }
    }
  }

  /** The first binary digit on which two addresses differ is their prefix length. */
  lemma FirstMismatch(x: nat, y: nat, i: nat)
    requires x < 0x1_0000_0000 && y < 0x1_0000_0000 && i < 32
    requires Bits(x, 32)[..i] == Bits(y, 32)[..i] && Bits(x, 32)[i] != Bits(y, 32)[i]
    ensures PrefixLength(x, y) == i
  {
    var s, t := Bits(x, 32), Bits(y, 32);
    assert s[..i + 1] != t[..i + 1] by {
      assert s[..i + 1][i] == s[i] && t[..i + 1][i] == t[i];
    }
    SameBlockIffBitsAgree(x, y, i);
    SameBlockIffBitsAgree(x, y, i + 1);
    PrefixLengthUnique(x, y, i);
  }

  /** Addresses that agree on all 32 binary digits have prefix length 32. */
  lemma NoMismatch(x: nat, y: nat)
    requires x < 0x1_0000_0000 && y < 0x1_0000_0000
    requires Bits(x, 32)[..32] == Bits(y, 32)[..32]
    ensures PrefixLength(x, y) == 32
  {
    SameBlockIffBitsAgree(x, y, 32);
    PrefixLengthUnique(x, y, 32);
  }

  /** `getCIDRPrefix(startIP, endIP)`: `startIP` followed by `/` and the number of
      leading binary digits on which the two addresses agree. */
  method GetCIDRPrefix(startIP: string, endIP: string) returns (r: string)
    requires IsValidIP(startIP) && IsValidIP(endIP)
    ensures r == startIP + "/" + NatToString(PrefixLength(Address(startIP), Address(endIP)))
  {
    var binStart := IpToBinary(startIP);
    var binEnd := IpToBinary(endIP);
    ghost var x, y := Address(startIP), Address(endIP);
    IpToBinaryIsBits(startIP);
    IpToBinaryIsBits(endIP);
    var prefixLength := 0;
    for i := 0 to 32
      invariant prefixLength == i
      invariant binStart[..i] == binEnd[..i]
    {
      if binStart[i] != binEnd[i] {
        FirstMismatch(x, y, i);
        break;
      }
      assert binStart[..i + 1] == binStart[..i] + [binStart[i]];
      assert binEnd[..i + 1] == binEnd[..i] + [binEnd[i]];
      prefixLength := prefixLength + 1;
    }
    if prefixLength == 32 {
      NoMismatch(x, y);
    }
    r := startIP + "/" + NatToString(prefixLength);
  }

  /** An address shares its whole 32-bit prefix with itself. */
  lemma IdenticalPrefix(x: nat)
    requires x < 0x1_0000_0000
    ensures PrefixLength(x, x) == 32
  {
    PrefixLengthUnique(x, x, 32);
  }

  /** An address in the lower half of the space and one in the upper half share
      no prefix: `0.0.0.0` and `255.255.255.255` give 0. */
  lemma HalvesPrefix(x: nat, y: nat)
    requires x < 0x8000_0000 <= y < 0x1_0000_0000
    ensures PrefixLength(x, y) == 0
  {
    Pow2Values();
    WordShrBound(x, 0);
    WordShrBound(y, 0);
    ShrBound(x, 0, 31);
    WordShrBound(y, 1);
    ShrPositive(y, 31);
    PrefixLengthUnique(x, y, 0);
  }

  lemma {:induction false} ShrPositive(y: nat, k: nat)
    requires y >= Pow2(k)
    ensures Shr(y, k) >= 1
  {
    if k > 0 {
      ShrPositive(y / 2, k - 1);
    }
  }

  /** `192.168.1.0` and `192.168.1.255` share exactly their first 24 bits. */
  lemma ClassCPrefix()
    ensures PrefixLength(3232235776, 3232236031) == 24
  {
    assert Shr(3232235776, 8) == 12625921 == Shr(3232236031, 8);
    assert Shr(3232235776, 7) == 25251842;
    assert Shr(3232236031, 7) == 25251843;
    PrefixLengthUnique(3232235776, 3232236031, 24);
  }

  /** `192.168.1.0`, written group by group, reads as 3232235776. */
  lemma ClassCStart()
    ensures IsValidIP("192" + "." + "168" + "." + "1" + "." + "0")
    ensures Address("192" + "." + "168" + "." + "1" + "." + "0") == 3232235776
  {
    RegexShape("192", "168", "1", "0");
    AddressOfGroups("192", "168", "1", "0");
  }

  /** `192.168.1.255`, written group by group, reads as 3232236031. */
  lemma ClassCEnd()
    ensures IsValidIP("192" + "." + "168" + "." + "1" + "." + "255")
    ensures Address("192" + "." + "168" + "." + "1" + "." + "255") == 3232236031
  {
    RegexShape("192", "168", "1", "255");
    AddressOfGroups("192", "168", "1", "255");
  }

  /** The netblock `192.168.1.0`-`192.168.1.255` is reported with prefix length 24. */
  lemma ClassCNetblock()
    ensures IsValidIP("192" + "." + "168" + "." + "1" + "." + "0")
    ensures IsValidIP("192" + "." + "168" + "." + "1" + "." + "255")
    ensures PrefixLength(Address("192" + "." + "168" + "." + "1" + "." + "0"),
                         Address("192" + "." + "168" + "." + "1" + "." + "255")) == 24
  {
    ClassCStart();
    ClassCEnd();
    ClassCPrefix();
  }

  /** `0.0.0.0` to `255.255.255.255`, written group by group, is reported with
      prefix length 0. */
  lemma WholeSpaceNetblock()
    ensures IsValidIP("0" + "." + "0" + "." + "0" + "." + "0")
    ensures IsValidIP("255" + "." + "255" + "." + "255" + "." + "255")
    ensures PrefixLength(Address("0" + "." + "0" + "." + "0" + "." + "0"),
                         Address("255" + "." + "255" + "." + "255" + "." + "255")) == 0
  {
    RegexShape("0", "0", "0", "0");
    AddressOfGroups("0", "0", "0", "0");
    RegexShape("255", "255", "255", "255");
    AddressOfGroups("255", "255", "255", "255");
    HalvesPrefix(Address("0" + "." + "0" + "." + "0" + "." + "0"),
                 Address("255" + "." + "255" + "." + "255" + "." + "255"));
  }
}
