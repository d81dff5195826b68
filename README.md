# Netcraft URL scanner front end, modelled in Dafny

The system is a single-page browser tool. A user submits a URL, and the page
then does four things:

- It looks up the host's IPv4 address over DNS-over-HTTPS. If the answer is not
  a dotted quad, it looks up the answer again.
- It asks the Netcraft reputation service about the URL. The URL is named by a
  URL-safe base-64 token built by `encodeUrlForNetcraft`.
- It tallies the threat patterns that the service returns and that match the URL.
- It renders a table that shows the URL defanged (`hxxp:`, `[.]`), the hosting
  netblock as a CIDR prefix, and the country as a flag emoji and a name.

All of it lives in `scripts/script.js`. This project models the computational
part of that file: the helper functions and the two loops of the submit
handler.

| module | file | models |
|---|---|---|
| `Options` | options.dfy | `null`/`undefined` as `None` |
| `Text` | text.dfy | the string methods the script uses (`split`, `join`, `replace` of one character, `startsWith`, `endsWith`, decimal digits) |
| `Base64` | base64.dfy | `btoa` (section 4 of RFC 4648) over the bytes of a binary string, a strict decoder as its inverse, and the URL-safe rewriting (`=` dropped, `+`→`-`, `/`→`_`) |
| `NetcraftUrl` | netcraft_url.dfy | `encodeUrlForNetcraft`, as a method over the outcome of `new URL(url)` |
| `IPv4` | ipv4.dfy | `isValidIP`, written out alternative by alternative, and the 32-bit value of a dotted quad |
| `Cidr` | cidr.dfy | `getCIDRPrefix`, as a method with the source's loop, proved against the longest common prefix of the two 32-bit values |
| `Defang` | defang.dfy | `defangUrl` |
| `Flag` | flag.dfy | `getFlagEmoji` and `getCountryLabel` over UTF-16 code units |
| `Scan` | scan.dfy | the bounded re-resolution loop and the pattern tally of the submit handler |

The script works on JavaScript strings, which are sequences of UTF-16 code
units. Dafny strings are sequences of Unicode scalar values. The model keeps
them apart where it matters:

- `btoa` accepts only strings whose characters are all at most U+00FF
  (`Base64.IsBinaryString`).
- `length` and `charCodeAt` count and read code units (`Flag.Utf16Length`,
  `Flag.FirstCodeUnit`).

## Model

| member | source | states |
|---|---|---|
| Base64.DecodeEncode | scripts/script.js:15 | decoding the base-64 text produced for any byte sequence gives back exactly those bytes |
| Base64.Encode | scripts/script.js:15 | `btoa`'s encoding of bytes is four characters for each started group of three bytes; that it decodes back is `Base64.DecodeEncode` |
| Base64.Btoa | scripts/script.js:15 | `btoa` of a string whose characters fit in a byte is four characters for each started group of three characters |
| Base64.UnpaddedLength | scripts/script.js:15 | the characters kept after `=` is removed, plus the removed padding, fill whole groups of four, so the padding can be recovered from the length alone |
| Base64.ToUrlSafe | scripts/script.js:15 | the three `replace` calls leave no `=`, `+` or `/` and never lengthen the text; that nothing else is lost is `Base64.UrlSafeEncoding` |
| Base64.UrlSafeEncoding | scripts/script.js:15 | after the three `replace` calls the encoding holds only `[A-Za-z0-9_-]`; mapping `-`/`_` back and re-padding to a multiple of four restores the standard encoding exactly |
| Base64.Base64UrlRoundTrip | scripts/script.js:20 | for every string `btoa` accepts, the URL-safe token is URL-safe, and `atob` of its restored form is the original string |
| Base64.Base64Url | scripts/script.js:15 | `btoa` followed by the three `replace` calls; its alphabet and its round trip are stated by `Base64.Base64UrlRoundTrip` |
| Text.ReplaceChar | scripts/script.js:59 | a global one-character `replace`: a string without that character is unchanged, and with a non-empty replacement only the empty string gives the empty string |
| Text.Split | scripts/script.js:14 | `split` on one character gives at least one piece, and no piece contains the separator |
| Text.Join | scripts/script.js:14 | `join`; stated by `Text.JoinSplit` and `Text.JoinFour` |
| Text.JoinFour | scripts/script.js:66 | joining four pieces with the empty glue concatenates them in order |
| Text.JoinSplit | scripts/script.js:14 | `split('/')` followed by `join('?x=')` replaces every `/` by `?x=` and changes nothing else |
| NetcraftUrl.EncodeUrlForNetcraft | scripts/script.js:1-22 | the token is the URL-safe base 64 of the origin plus the `?x=`-joined trimmed path when the URL parses and that string fits in bytes, and of the raw input otherwise; the token holds only URL-safe characters and decodes back to the string encoded |
| NetcraftUrl.TrimPath | scripts/script.js:6-12 | one trailing, then one leading `/` dropped; stated by `NetcraftUrl.TrimWrapped` and `NetcraftUrl.TrimFixedPoint` |
| NetcraftUrl.PreEncoding | scripts/script.js:14-15 | the string encoded in the `try` branch always begins with the origin; its exact shape is `NetcraftUrl.PreEncodingShape` |
| NetcraftUrl.TokenSource | scripts/script.js:15-20 | the string that is encoded: the pre-encoding when the URL parses and `btoa` accepts it, the raw input otherwise; stated by the contract of `NetcraftUrl.EncodeUrlForNetcraft` |
| NetcraftUrl.SegmentsGivePreEncoding | scripts/script.js:14-15 | the origin followed by `?x=` and the joined segments, which are left out when empty, is exactly the pre-encoding that the other lemmas reason about |
| NetcraftUrl.TrimWrapped | scripts/script.js:6-12 | one slash added at each end of a path is exactly what the two trimming steps remove |
| NetcraftUrl.TrimFixedPoint | scripts/script.js:6-12 | trimming leaves a path unchanged if and only if it neither starts nor ends with `/` |
| NetcraftUrl.PreEncodingIgnoresBoundingSlashes | scripts/script.js:6-15 | a path with or without one bounding slash at each end gives the same encoded string, so the same token |
| NetcraftUrl.PreEncodingShape | scripts/script.js:14-15 | the encoded string is the bare origin if and only if the trimmed path is empty; otherwise it is the origin, `?x=`, and the path's segments joined by `?x=` |
| NetcraftUrl.RootPathIsOrigin | scripts/script.js:6-15 | the paths `/` and empty both encode only the origin |
| NetcraftUrl.ExamplePath | scripts/script.js:6-15 | the path `/a/b/` encodes as the origin followed by `?x=a?x=b` |
| IPv4.OctetPatternIff | scripts/script.js:53 | one group of the regex accepts exactly the strings of one to three decimal digits whose value is at most 255, leading zeros included |
| IPv4.IsValidIP | scripts/script.js:52-55 | the anchored regex test; characterized by `IPv4.ValidIPIff` and `IPv4.RegexShape` |
| IPv4.ValidIPIff | scripts/script.js:52-55 | `isValidIP(s)` holds if and only if `s` splits on `.` into exactly four groups, each of one to three digits with value at most 255 |
| IPv4.RegexShape | scripts/script.js:53 | for dot-free groups, the anchored regex matches `g0.g1.g2.g3` if and only if each group matches the octet alternatives |
| IPv4.AddressOfGroups | scripts/script.js:64-65 | the groups of a valid address are digit strings, and its four octets are their decimal values, in order |
| IPv4.ValidExamples | scripts/script.js:52-55 | `0.0.0.0` and `255.255.255.255` are accepted |
| IPv4.InvalidGroupExamples | scripts/script.js:52-55 | `256.1.1.1` and `abc.1.1.1` are rejected |
| IPv4.WrongGroupCountExamples | scripts/script.js:52-55 | `1.1.1` and `1.1.1.1.1` are rejected |
| Cidr.GetCIDRPrefix | scripts/script.js:63-78 | the result is the start address, `/`, and the length of the longest common leading block of the two 32-bit addresses, in decimal |
| Cidr.PrefixLength | scripts/script.js:70-75 | the count the loop computes: at most 32, the two addresses agree on their top `n` bits and, below 32, not on the top `n + 1` |
| Cidr.OctetBits | scripts/script.js:65 | one group as binary text; stated by `Cidr.OctetBitsIsBits` |
| Cidr.OctetBitsIsBits | scripts/script.js:65 | for a decimal octet, `parseInt(octet).toString(2).padStart(8, '0')` is the 8-bit binary form of its value |
| Cidr.IpToBinary | scripts/script.js:64-66 | `ipToBinary`; stated by `Cidr.IpToBinaryIsBits` |
| Cidr.PaddedBinary | scripts/script.js:65 | `toString(2).padStart(8, '0')` of an octet is its 8-bit big-endian binary form |
| Cidr.IpToBinaryIsBits | scripts/script.js:64-66 | `ipToBinary` of a valid address is the 32-bit binary form of its value |
| Cidr.SameBlockIffBitsAgree | scripts/script.js:72-75 | two addresses agree on their top `n` bits if and only if their binary strings share the first `n` characters |
| Cidr.PrefixLengthUnique | scripts/script.js:70-75 | `n` is the computed prefix length if and only if the addresses agree on the top `n` bits and, below 32, not on the top `n + 1` |
| Cidr.FirstMismatch | scripts/script.js:72-74 | when the binary strings first differ at position `i`, the prefix length is `i` |
| Cidr.NoMismatch | scripts/script.js:72-75 | when all 32 positions agree, the prefix length is 32 |
| Cidr.IdenticalPrefix | scripts/script.js:166 | an address paired with itself, as with both netblock bounds missing (`0.0.0.0`), gives prefix 32 |
| Cidr.HalvesPrefix | scripts/script.js:72-75 | addresses on different sides of 128.0.0.0 give prefix 0 |
| Cidr.ClassCNetblock | scripts/script.js:63-78 | `192.168.1.0` to `192.168.1.255` gives prefix 24 |
| Cidr.WholeSpaceNetblock | scripts/script.js:63-78 | `0.0.0.0` to `255.255.255.255` gives prefix 0 |
| Defang.ReplaceScheme | scripts/script.js:58 | a URL that does not begin with `http:` or `https:` is left as it is |
| Defang.SchemeCases | scripts/script.js:58 | `https:` and `http:` both become `hxxp:`, and the rest of the URL is kept |
| Defang.BracketDots | scripts/script.js:59 | every `.` written `[.]`; stated by `Defang.BracketDotsBracketed` and `Defang.UnbracketBracketDots` |
| Defang.DefangUrl | scripts/script.js:57-61 | `defangUrl`; stated by `Defang.DefangShape` and `Defang.UnbracketDefang` |
| Defang.DefangShape | scripts/script.js:57-61 | only a leading scheme is rewritten; the dots of the rest are bracketed, whatever the scheme |
| Defang.BracketDotsBracketed | scripts/script.js:59 | after bracketing, every `.` stands between `[` and `]` |
| Defang.UnbracketBracketDots | scripts/script.js:59 | reading each `[.]` back as `.` recovers the input, so bracketing loses nothing |
| Defang.UnbracketDefang | scripts/script.js:57-61 | a defanged URL reads back as the URL with only its scheme rewritten, and has no bare dot |
| Defang.DefangSingleDot | scripts/script.js:57-61 | `https:` or `http:` followed by text with one dot defangs to `hxxp:` followed by that text with the dot as `[.]` |
| Flag.FirstCodeUnit | scripts/script.js:84 | `charCodeAt(0)` is the character itself inside the Basic Multilingual Plane and a high surrogate outside it |
| Flag.GetFlagEmoji | scripts/script.js:80-86 | a missing code, or one whose `length` is not 2, gives the globe; two ASCII letters of either case give two regional indicator symbols that read back as the upper-cased letters; the converse of the first clause is `Flag.GlobeIff` |
| Flag.Utf16LengthTwo | scripts/script.js:81 | a code has `length` 2 if and only if it is two BMP characters or one character outside the BMP |
| Flag.GlobeIff | scripts/script.js:80-86 | the result is the globe if and only if the code is missing or its `length` is not 2 |
| Flag.LetterIndicator | scripts/script.js:82-84 | a letter of either case maps to the regional indicator symbol of the same letter |
| Flag.TwoLetterFlag | scripts/script.js:80-86 | a two-letter code gives exactly two regional indicators, which read back as the upper-cased code |
| Flag.FlagIgnoresCase | scripts/script.js:82 | the flag of a two-letter code does not depend on the letters' case |
| Flag.FlagExample | scripts/script.js:80-86 | `gb` gives U+1F1EC U+1F1E7 |
| Flag.CountryLabel | scripts/script.js:88-93 | a missing or empty code gives the globe followed by `World (UN)` |
| Scan.ResolveUntilValid | scripts/script.js:109-120 | one to six lookups, each after the first on the previous answer; every answer before the last is invalid, and with fewer than six lookups the last is a valid address |
| Scan.LookupsDetermined | scripts/script.js:109-120 | the loop's contract fixes the number of lookups: the position of the first valid answer, capped at six |
| Scan.Label | scripts/script.js:158 | the label is never empty: `n_type` if it is truthy, else `type` if truthy, else `unknown` |
| Scan.StripFlags | scripts/script.js:146-149 | a leading `(?i)` is removed and becomes the `i` flag; otherwise the pattern is kept and there are no flags |
| Scan.StripFlagsOnce | scripts/script.js:146-149 | only the first `(?i)` is removed |
| Scan.MatchedLabels | scripts/script.js:140-163 | the tally is aborted exactly when some entry is `null`; otherwise there are at most as many labels as entries, and none of them is empty |
| Scan.TallyPatterns | scripts/script.js:137-164 | the match count equals the number of labels collected and is at most the number of entries; a missing array gives none; the loop aborts exactly when an entry is `null`, holding the labels of the entries before the first one; otherwise it ends with the labels of the matching entries, in order |
| Scan.Contribution | scripts/script.js:143-159 | the label one present entry adds, if any; stated by `Scan.InvalidPatternAddsNothing` and `Scan.MatchingPatternAddsLabel` |
| Scan.MatchedLabelsAppend | scripts/script.js:141-163 | the tally of two runs of entries is the tally of each run, concatenated in order, and is aborted when either run is |
| Scan.NullEntryAborts | scripts/script.js:143-161 | a `null` entry anywhere aborts the tally: reading `patternObj.pattern` throws, and the `catch` that should skip the entry reads it again and throws out of the `forEach` |
| Scan.InvalidPatternAddsNothing | scripts/script.js:160-162 | a pattern that does not decode or does not compile adds no label |
| Scan.MatchingPatternAddsLabel | scripts/script.js:156-158 | a pattern that matches adds its label at the end of a tally that was not aborted |

## Left out

- The page itself (scripts/script.js:95-107, 168-187) is not modelled: the DOM, the loading and error messages, the rendered table, the `none` fallback for an empty label list and the total pattern count. This is display code and computes nothing the model does not cover.
- `fetch` and `async` are not modelled, so neither are the HTTP status handling (`204`, `!res.ok`) and the JSON parsing of the reputation response (scripts/script.js:122-136). They are network I/O.
- `resolveDomain` (scripts/script.js:34-50) is a parameter `resolve(j, d)` of `Scan.ResolveUntilValid`. A DNS answer can change from one call to the next, so the call index is part of its argument. `null` is `None`.
- `extractDomain` (scripts/script.js:24-32) and `new URL` are not modelled, because the WHATWG URL parser is out of scope. Their outcome is an input: the host given to the resolver, and the `Option<ParsedUrl>` given to `NetcraftUrl.EncodeUrlForNetcraft`.
- `atob` of the service's patterns and the `RegExp` engine are function parameters of `Scan.TallyPatterns`. A regex that fails to compile is a `None` answer, like a failed decode. `Base64.Decode` is a strict decoder that serves only as the inverse of `btoa`; it is not the browser's lenient `atob`.
- `Intl.DisplayNames` is not modelled. The region name is a parameter of `Flag.CountryLabel`.
- `toUpperCase` is modelled on ASCII letters only. Other characters are kept as they are.
- `console` logging is left out, because it has no effect on results.
- The outer `catch` block (scripts/script.js:181-183) is left out. It reads `data`, which is declared inside the `try` block and is not in scope there, so it throws in turn and no error message is shown. This is what happens after `Scan.TallyPatterns` aborts on a `null` entry: the handler ends without a result.
- The WHATWG URL parser always gives an ASCII origin (the host is IDNA-encoded, or the origin is the text `null`) and a pathname percent-encoded above U+007E, so in a browser the string given to `btoa` at scripts/script.js:15 never throws. The model takes `ParsedUrl` as an arbitrary input, so it also covers parser outputs the real parser never produces; for those, a character above U+00FF sends it to the `catch` branch, as the script would.
- NetcraftUrl.EncodeUrlForNetcraft: requires that the string it finally encodes fits in bytes. The `btoa` call in the `catch` branch is unguarded, so for other inputs the script throws out of the function. That exception path is not modelled.
- Cidr.GetCIDRPrefix: requires two valid dotted quads; other input is not modelled. There `parseInt` reads each group's leading digits: it gives `NaN` only for a group that does not start with a digit, a value of any size otherwise (`300` becomes a 9-character group), and an IPv6 bound such as `2606:4700::` becomes one 12-character string. A string of other than four groups gives other lengths too. When both binary strings are shorter than 32, the loop compares `undefined` with `undefined` past their ends and counts that as agreement. The handler passes `0.0.0.0` for a missing bound, which is valid.
- Flag.CountryLabel: the contract states only the missing-code case. For a present code, the label is the flag, a space, the name and the code in parentheses, and that is stated only by its definition.
- Re-resolution count: the counter and its bound suggest at most four further lookups. The code checks `ipValidationCount > 3` only after each further lookup, so up to five further lookups happen (six in all). `Scan.ResolveUntilValid` follows the code.
