# Seamless Docs request signing, modelled in Dafny

The Paw extension `SeamlessDynamicValue` signs a request for the Seamless
Docs API in two steps.

1. `getStringToSign(request)` builds the canonical string:
   `method + "+" + path + "+" + timestamp`.
   - The path is `URI(request.url).segment(0, "").pathname()`. That is the
     URL's path with its first segment spliced out, and `/` when nothing is
     left.
   - The timestamp comes fresh from the host on each call.
2. `evaluate(context)` asks the host HMAC dynamic value for the lowercase
   hexadecimal HMAC-SHA256 of that string under the secret, then returns
   `encodeURIComponent` of it.

The model is pure Dafny: datatypes, functions and lemmas, matching the
straight-line code it models. It has five modules, one file each.

| file | module | what it holds |
|---|---|---|
| `wrappers.dfy` | `Wrappers` | `Option` |
| `text.dfy` | `Text` | `indexOf`, `lastIndexOf`, `split` and `join` with a one-character separator, and their round trips |
| `urls.dfy` | `Urls` | the part of urijs the signer uses: see below |
| `uri_component.dfy` | `UriComponent` | `encodeURIComponent`, and a decoder as its partner: see below |
| `seamless.dfy` | `Seamless` | `signHmac256`, `getStringToSign`, `evaluate`, and the properties of the signature |

What `urls.dfy` covers of urijs:
- Parsing a URL into scheme, authority, path, query and fragment (`Urls.Parse`).
- `Urls.Build`, which writes the parts back with their delimiters. It is the model's own inverse of `Parse` and pins down which parts `Parse` returns. It is not the urijs href, which normalises (see "## Left out").
- `segment()`, i.e. the path read as segments.
- `segment(0, "")`, which splices out the first segment.
- The `pathname` setter, which stores `/` for an empty path.

What `uri_component.dfy` holds:
- `encodeURIComponent` as section 19.2.6 ("URI Handling Functions") of ECMA-262 defines it.
  - It leaves `A–Z a–z 0–9 - _ . ! ~ * ' ( )` as they are.
  - Every other character becomes `%XX` triples of its UTF-8 bytes, with uppercase hexadecimal digits.
- Percent-decoding followed by UTF-8 decoding, as the partner to the encoding.

What the model takes from its surroundings:
- The host HMAC dynamic value is the function parameter `Seamless.HmacService`. It maps the settings the code passes (input, key, algorithm code 3, `uppercase: false`, `Hexadecimal`) to the string it evaluates to.
- What is assumed of the host is stated once, as the predicate `Seamless.HonoursSha256Hex`: asked for SHA-256 in lowercase hexadecimal, it returns 64 lowercase hexadecimal digits. Only the lemmas that need this assumption require it.
- The timestamp is an argument.
- `this.secret` is an argument.
- The request is reduced to the two fields the code reads: `method` (the field `verb`) and `url`.

The path follows the code rather than its comment. The comment at
`src/SeamlessDynamicValue.js:32-34` describes the whole absolute path. The
code calls `segment(0, "")` first, which removes the first segment. So for
`GET https://api.example.com/v1/docs/123?foo=bar` the string to sign is
`GET+/docs/123+<timestamp>`, not `GET+/v1/docs/123+<timestamp>`. The model
uses the code's path, and `Seamless.ExampleWithPathAndQuery` states it.

## Model

| member | source | states |
|---|---|---|
| `Seamless.CanonicalLayout` | src/SeamlessDynamicValue.js:39-41 | the canonical string has length \|verb\|+\|path\|+\|timestamp\|+2; it is the verb, a `+`, the path, a `+` and the timestamp, position by position |
| `Seamless.StringToSignLayout` | src/SeamlessDynamicValue.js:39-41 | the string to sign starts with the request method unchanged, then `+`, the signed path, `+`, and ends with the timestamp; nothing else is added |
| `Seamless.CanonicalSplitsBack` | src/SeamlessDynamicValue.js:39-41 | with no `+` in the verb or the timestamp, splitting the canonical string at its first and last `+` gives back verb, path and timestamp |
| `Seamless.StringToSignSplitsBack` | src/SeamlessDynamicValue.js:39-41 | with no `+` in the method or the timestamp, the string to sign splits back into the method, the signed path of the URL and the timestamp |
| `Seamless.FirstSeparator` | src/SeamlessDynamicValue.js:39 | with no `+` in the verb, the first `+` of the canonical string is right after the verb |
| `Seamless.LastSeparator` | src/SeamlessDynamicValue.js:40-41 | with no `+` in the timestamp, the last `+` of the canonical string is right before the timestamp |
| `Seamless.CanonicalDeterminesTimestamp` | src/SeamlessDynamicValue.js:36-41 | two canonical strings with the same verb and path are equal only when their timestamps are equal |
| `Seamless.StringToSignDeterminesTimestamp` | src/SeamlessDynamicValue.js:36-41 | for one request, different timestamps give different strings to sign |
| `Seamless.EvaluateIgnoresQueryAndFragment` | src/SeamlessDynamicValue.js:32-34 | whatever follows the first `?` or `#` of the URL changes neither the string to sign nor the signature |
| `Seamless.LowerHexIsUnescaped` | src/SeamlessDynamicValue.js:16-17 | a 64-digit lowercase hexadecimal string consists only of characters `encodeURIComponent` leaves alone |
| `Seamless.EvaluateIsDigest` | src/SeamlessDynamicValue.js:53-62 | where the host returns the lowercase hexadecimal SHA-256 HMAC it is asked for, `evaluate` returns that digest unchanged: 64 lowercase hexadecimal digits, no `%` |
| `Seamless.EvaluateDecodesToDigest` | src/SeamlessDynamicValue.js:53-62 | whatever the host returns, the signature is unescaped characters and `%XX` triples, and percent-decoding it gives back the host's string |
| `Seamless.EvaluateSeparatesDigests` | src/SeamlessDynamicValue.js:53-62 | two signatures, each with its own request, timestamp and secret, differ whenever the host's digests of the two strings to sign under the two secrets differ: the encoding step is injective |
| `Seamless.ExampleWithPathAndQuery` | src/SeamlessDynamicValue.js:39-41 | `GET https://api.example.com/v1/docs/123?foo=bar` with timestamp `20240101T000000Z` is signed over `GET+/docs/123+20240101T000000Z` |
| `Seamless.ExampleSignedPath` | src/SeamlessDynamicValue.js:40 | the signed path of `https://api.example.com/v1/docs/123?foo=bar` is `/docs/123` |
| `Seamless.ExampleUrlPath` | src/SeamlessDynamicValue.js:23 | urijs reads the path `/v1/docs/123` from `https://api.example.com/v1/docs/123?foo=bar` |
| `Seamless.ExampleBuild` | src/SeamlessDynamicValue.js:23 | `Build` of the parsed parts of that URL gives back the URL string (the model's inverse of `Parse`, not the urijs href) |
| `Seamless.ExamplePathWithoutFirstSegment` | src/SeamlessDynamicValue.js:40 | `/v1/docs/123` without its first segment is `/docs/123` |
| `Seamless.ExampleTrailingSlash` | src/SeamlessDynamicValue.js:40 | `/v1/docs/` without its first segment is `/docs/`: the trailing slash stays |
| `Seamless.ExampleHostOnly` | src/SeamlessDynamicValue.js:33-34 | `POST https://api.example.com` is signed over `POST+/+<timestamp>` |
| `Seamless.ExampleHostOnlySignedPath` | src/SeamlessDynamicValue.js:33-34 | the signed path of `https://api.example.com` is `/` |
| `Urls.Parse` | src/SeamlessDynamicValue.js:23 | `URI(url)`: the parts it returns are well formed. A scheme comes only with an authority. An authority has no `/`, `?` or `#` and is followed by an empty path or one starting with `/`. Without an authority, the path cannot be read as `//authority` or `scheme://`. The path has no `?` or `#`, and the query has no `#` |
| `Urls.BuildParse` | src/SeamlessDynamicValue.js:23 | parsing loses nothing: writing the parsed parts back with `Build`, the model's inverse of `Parse`, gives the URL string |
| `Urls.ParseBuild` | src/SeamlessDynamicValue.js:23 | parsing `Build` of well-formed parts gives those parts back, so `Parse` returns the one well-formed split of its input |
| `Urls.Segments` | src/SeamlessDynamicValue.js:40 | `segment()`: there is at least one segment, and no segment contains `/` |
| `Urls.DropsFirstSegment` | src/SeamlessDynamicValue.js:40 | for the absolute path `/s0/s1/…/sn`, `segment(0, "").pathname()` is `/s1/…/sn`, a trailing empty segment included |
| `Urls.DropsFirstRelativeSegment` | src/SeamlessDynamicValue.js:40 | for the relative path `s0/s1/…/sn`, the result is `s1/…/sn`, or `/` when that is empty |
| `Urls.OnlySegmentLeavesSlash` | src/SeamlessDynamicValue.js:33-34 | when the path has only one segment, the path read is `/` |
| `Urls.HostOnlyUrlSignsSlash` | src/SeamlessDynamicValue.js:33-34 | a URL `scheme://authority` with no path is signed with the path `/` |
| `Urls.PathnameAvoids` | src/SeamlessDynamicValue.js:40 | removing the first segment adds no character other than `/` |
| `Urls.SignedPathExcludesQueryAndFragment` | src/SeamlessDynamicValue.js:32-34 | the signed path of any URL contains neither `?` nor `#` |
| `Urls.SignedPathIgnoresQueryAndFragment` | src/SeamlessDynamicValue.js:32-34 | what follows the first `?` or `#` of a URL does not change its signed path |
| `UriComponent.EncodeURIComponent` | src/SeamlessDynamicValue.js:62 | `encodeURIComponent(s)`: every character of the output is unescaped or starts a `%XX` triple with uppercase hexadecimal digits |
| `UriComponent.EncodeUnescapedIsIdentity` | src/SeamlessDynamicValue.js:62 | a string of unescaped characters is its own encoding |
| `UriComponent.EncodeLength` | src/SeamlessDynamicValue.js:62 | the encoding is never shorter than its input, and has the same length exactly when every character is unescaped |
| `UriComponent.EncodeIsIdentityIff` | src/SeamlessDynamicValue.js:62 | the encoding equals its input if and only if every character is unescaped |
| `UriComponent.Utf8RoundTrip` | src/SeamlessDynamicValue.js:62 | UTF-8 decoding gives back the characters whose bytes `encodeURIComponent` escapes |
| `UriComponent.PercentDecodeOfEncoding` | src/SeamlessDynamicValue.js:62 | percent-decoding the encoding of a string gives that string's UTF-8 bytes |
| `UriComponent.DecodeEncode` | src/SeamlessDynamicValue.js:62 | decoding the output of `encodeURIComponent` gives back its input |
| `Text.IndexOf` | src/SeamlessDynamicValue.js:23 | the first position of a character: absent exactly when the character does not occur, and otherwise that character with no earlier occurrence |
| `Text.SplitAtFirst` | src/SeamlessDynamicValue.js:23 | cutting at the first occurrence of a character: the two parts and the character make up the string, and the first part lacks it |
| `Text.Split` | src/SeamlessDynamicValue.js:40 | `split`: at least one piece, and no piece holds the separator |
| `Text.JoinSplit` | src/SeamlessDynamicValue.js:40 | joining the pieces of a split with the separator gives the string back |
| `Text.SplitJoin` | src/SeamlessDynamicValue.js:40 | splitting the join of separator-free pieces gives the pieces back |

## Left out

- The HMAC-SHA256 computation (the host's `com.luckymarmot.HMACDynamicValue`) is a foreign primitive. It is the function parameter `HmacService`. Its output shape is assumed through `HonoursSha256Hex`.
- `Seamless.StringToSignDeterminesTimestamp`: the statement is about the string to sign only. With `Seamless.EvaluateSeparatesDigests` it carries to the signature as far as the host's digest: different timestamps give different signatures whenever the host's digests of the two strings differ. For the digests themselves to differ is a property of HMAC, and the host service is a parameter with no such property assumed.
- `Seamless.EvaluateSeparatesDigests`: the secret reaches the host unchanged as `key` (src/SeamlessDynamicValue.js:14, 53), and the model does not truncate or normalise it. Whether different keys, like different strings to sign, give different digests is a property of HMAC, which the model does not assume. So a changed secret is proved to change the signature only when it changes the host's digest.
- Determinism in the same inputs has no lemma of its own. `GetStringToSign` and `Evaluate` are Dafny functions of the request, the secret, the timestamp and the host service, so equal inputs give equal outputs by construction.
- The timestamp generator (`com.luckymarmot.TimestampDynamicValue`, format 1) is a host call. Its result is an argument, and its format is not modelled.
- Plugin registration and metadata (`@registerDynamicValueClass`, `identifier`, `title`, `inputs`) and `context.getCurrentRequest()` are host plumbing with no behaviour of their own. Neither is modelled.
- urijs is not part of this model beyond the subset above. Left out of that subset:
  - scheme case normalisation;
  - backslash handling;
  - the user information, host and port split of the authority;
  - IPv6 hosts;
  - URNs such as `mailto:`;
  - protocol-relative edge cases;
  - which malformed strings urijs rejects with an error;
  - the leading whitespace, tab and newline characters that newer urijs versions strip before parsing (the model reads ` https://h/a/b` as a relative path).
  - the slash normalisation that newer urijs versions apply before splitting (`^(https?|ftp|wss?)?:+[/\\]*` becomes `$1://`, and `^[/\\]{2,}` becomes `//`). It changes the signed path: for `https:///a/b` urijs reads host `a` and signs `/`, where the model reads an empty authority and signs `/b`; for `https:/h/a` urijs signs `/`, where the model signs `h/a`; `////h/p` differs the same way.
- A URL whose scheme is not followed by `//` is read as having no scheme and no authority.
- `Urls.Parse` keeps the empty path of `scheme://host` as `""`, where urijs stores `/`. The signed path is `/` either way, because the `pathname` setter stores `/` for the empty path (`Urls.HostOnlyUrlSignsSlash`).
- `Urls.Build` is not the urijs href. urijs writes a `/` after a bare host and drops an empty `?` or `#`, so `URI("https://api.example.com").href()` is `https://api.example.com/`. `Build(Parse(s)) == s` holds for every `s` in the model and is a statement about the model's parser, not about urijs's serialiser.
- `Urls.Parse` keeps an empty query or fragment (`?` or `#` at the end) as an empty part, where urijs keeps null. The path that is signed is the same.
- urijs re-encodes path characters (`recodePath`) when it stores a path. The model stores the path as given, so it matches urijs on paths already in that canonical form.
- `Urls.StoredPath` stores `/` for every empty path, as the urijs `pathname` setter does for a non-URN URI. A URL with a host is one case of this (`Urls.HostOnlyUrlSignsSlash`).
- JavaScript strings are UTF-16. The model's strings are Unicode scalar values, so the `URIError` that `encodeURIComponent` throws on a lone surrogate cannot arise and is not modelled.
- The comment at `src/SeamlessDynamicValue.js:49-51` asks for base64. The code asks the host for hexadecimal (line 17), and only that is modelled. `DigestEncoding.Base64` exists only so that the settings type has both values.
