/**
  The Seamless Docs authentication dynamic value: the string to sign made of
  the request's method, its path without the first segment and a timestamp,
  and the signature sent with the request, the percent-encoded lowercase
  hexadecimal HMAC-SHA256 of that string under the secret key.

  The host's HMAC dynamic value is a parameter (`HmacService`) and the
  timestamp the host generates on each call is an argument.
*/
module Seamless {
  import opened Wrappers
  import opened Text
  import Urls
  import UriComponent

  /** The fields of the current request that the signer reads. */
  datatype Request = Request(verb: string, url: string)

  /** Digest encodings the host HMAC dynamic value offers. */
  datatype DigestEncoding = Hexadecimal | Base64

  /** The settings the host HMAC dynamic value is created with. */
  datatype HmacParams = HmacParams(
    input: string,
    key: string,
    algorithm: int,
    uppercase: bool,
    encoding: DigestEncoding)

  /** The host HMAC dynamic value, evaluated to its string. */
  type HmacService = HmacParams -> string

  /** The host's code for SHA-256. */
  const Sha256: int := 3

  predicate IsLowerHexDigit(c: char) {
    '0' <= c <= '9' || 'a' <= c <= 'f'
  }

  /** A SHA-256 digest written out: 64 lowercase hexadecimal digits. */
  predicate IsLowerHexSha256(s: string) {
    |s| == 64 && forall i :: 0 <= i < |s| ==> IsLowerHexDigit(s[i])
  }

  /**
    What the model assumes of the host: asked for SHA-256, lowercase and
    hexadecimal, its HMAC yields 64 lowercase hexadecimal digits.
  */
  ghost predicate HonoursSha256Hex(hmac: HmacService) {
    forall p: HmacParams :: p.algorithm == Sha256 && !p.uppercase && p.encoding == Hexadecimal ==> IsLowerHexSha256(hmac(p))
  }

  /** `signHmac256(input, key)`: the host HMAC with SHA-256, lowercase, hexadecimal. */
  function SignHmac256(hmac: HmacService, input: string, key: string): string {
    hmac(HmacParams(input, key, Sha256, false, Hexadecimal))
  }

  /** The pseudo-grammar of the string to sign: HTTPVerb "+" HTTPRequestURI "+" timestamp. */
  function Canonical(verb: string, path: string, timestamp: string): string {
    verb + "+" + path + "+" + timestamp
  }

  /** `getStringToSign(request)` with the timestamp the host generated for this call. */
  function GetStringToSign(request: Request, timestamp: string): string {
    Canonical(request.verb, Urls.SignedPath(request.url), timestamp)
  }

  /** `evaluate(context)`: the signature for the current request. */
  function Evaluate(request: Request, secret: string, timestamp: string, hmac: HmacService): string {
    UriComponent.EncodeURIComponent(SignHmac256(hmac, GetStringToSign(request, timestamp), secret))
  }

  /**
    Reads a string to sign back into method, path and timestamp: the method
    runs to the first `+`, the timestamp from the last.
  */
  function SplitStringToSign(s: string): Option<(string, string, string)> {
    match (IndexOf(s, '+'), LastIndexOf(s, '+'))
    case (Some(i), Some(j)) =>
      if i < j then Some((s[..i], s[i + 1..j], s[j + 1..])) else None
    case _ => None
  }

  /**
    The canonical string is the verb as given, a `+`, the path, a `+` and
    the timestamp, and nothing else.
  */
  lemma CanonicalLayout(verb: string, path: string, timestamp: string)
    ensures var s := Canonical(verb, path, timestamp);
            && |s| == |verb| + |path| + |timestamp| + 2
            && s[..|verb|] == verb
            && s[|verb|] == '+'
            && s[|verb| + 1..|verb| + 1 + |path|] == path
            && s[|verb| + 1 + |path|] == '+'
            && s[|verb| + 1 + |path| + 1..] == timestamp
  {
  }

  /** The string to sign starts with the method unchanged and ends with the timestamp. */
  lemma StringToSignLayout(request: Request, timestamp: string)
    ensures var s := GetStringToSign(request, timestamp);
            var m := request.verb;
            var p := Urls.SignedPath(request.url);
            && |s| == |m| + |p| + |timestamp| + 2
            && s[..|m|] == m
            && s[|m|] == '+'
            && s[|m| + 1..|m| + 1 + |p|] == p
            && s[|m| + 1 + |p|] == '+'
            && s[|m| + 1 + |p| + 1..] == timestamp
  {
    CanonicalLayout(request.verb, Urls.SignedPath(request.url), timestamp);
  }

  /**
    With a verb and a timestamp that contain no `+`, the canonical string
    splits back into its three parts: the two separators are the only `+`
    that is added.
  */
  lemma CanonicalSplitsBack(verb: string, path: string, timestamp: string)
    requires '+' !in verb && '+' !in timestamp
    ensures SplitStringToSign(Canonical(verb, path, timestamp)) == Some((verb, path, timestamp))
  {
    var s := Canonical(verb, path, timestamp);
    var i, j := |verb|, |verb| + 1 + |path|;
    assert IndexOf(s, '+') == Some(i) by {
      FirstSeparator(verb, path, timestamp);
    }
    assert LastIndexOf(s, '+') == Some(j) by {
      LastSeparator(verb, path, timestamp);
    }
    assert s[..i] == verb && s[i + 1..j] == path && s[i + 1 + |path| + 1..] == timestamp by {
      CanonicalLayout(verb, path, timestamp);
    }
    SplitAtSeparators(s, i, j, verb, path, timestamp);
  }

  /** Without a `+` in the verb, the first `+` is the one after the verb. */
  lemma FirstSeparator(verb: string, path: string, timestamp: string)
    requires '+' !in verb
    ensures IndexOf(Canonical(verb, path, timestamp), '+') == Some(|verb|)
  {
    var after := path + "+" + timestamp;
    assert Canonical(verb, path, timestamp) == verb + ['+'] + after;
    IndexOfAfter(verb, '+', after);
  }

  /** Without a `+` in the timestamp, the last `+` is the one before the timestamp. */
  lemma LastSeparator(verb: string, path: string, timestamp: string)
    requires '+' !in timestamp
    ensures LastIndexOf(Canonical(verb, path, timestamp), '+') == Some(|verb| + 1 + |path|)
  {
    var before := verb + "+" + path;
    assert Canonical(verb, path, timestamp) == before + ['+'] + timestamp;
    LastIndexOfBefore(before, '+', timestamp);
  }

  /** Where the first and the last `+` are, the split cuts. */
  lemma SplitAtSeparators(s: string, i: nat, j: nat, a: string, b: string, c: string)
    requires IndexOf(s, '+') == Some(i)
    requires LastIndexOf(s, '+') == Some(j)
    requires i < j
    requires s[..i] == a
    requires s[i + 1..j] == b
    requires s[i + 1 + |b| + 1..] == c
    ensures SplitStringToSign(s) == Some((a, b, c))
  {
  }

  /**
    With a method and a timestamp that contain no `+`, the string to sign
    splits back into method, signed path and timestamp.
  */
  lemma StringToSignSplitsBack(request: Request, timestamp: string)
    requires '+' !in request.verb && '+' !in timestamp
    ensures SplitStringToSign(GetStringToSign(request, timestamp))
            == Some((request.verb, Urls.SignedPath(request.url), timestamp))
  {
    CanonicalSplitsBack(request.verb, Urls.SignedPath(request.url), timestamp);
  }

  /** Two canonical strings with the same verb and path are equal only for equal timestamps. */
  lemma CanonicalDeterminesTimestamp(verb: string, path: string, t1: string, t2: string)
    requires Canonical(verb, path, t1) == Canonical(verb, path, t2)
    ensures t1 == t2
  {
    var prefix := verb + "+" + path + "+";
    assert Canonical(verb, path, t1) == prefix + t1;
    assert Canonical(verb, path, t2) == prefix + t2;
    assert t1 == (prefix + t1)[|prefix|..];
    assert t2 == (prefix + t2)[|prefix|..];
  }

  /** Two strings to sign for the same request are equal only for equal timestamps. */
  lemma StringToSignDeterminesTimestamp(request: Request, t1: string, t2: string)
    requires GetStringToSign(request, t1) == GetStringToSign(request, t2)
    ensures t1 == t2
  {
    CanonicalDeterminesTimestamp(request.verb, Urls.SignedPath(request.url), t1, t2);
  }

  /** The query string and fragment of the URL change neither the string to sign nor the signature. */
  lemma EvaluateIgnoresQueryAndFragment(
    verb: string, base: string, rest: string, secret: string, timestamp: string, hmac: HmacService)
    requires '?' !in base && '#' !in base
    requires |rest| > 0 && (rest[0] == '?' || rest[0] == '#')
    ensures GetStringToSign(Request(verb, base + rest), timestamp) == GetStringToSign(Request(verb, base), timestamp)
    ensures Evaluate(Request(verb, base + rest), secret, timestamp, hmac)
            == Evaluate(Request(verb, base), secret, timestamp, hmac)
  {
    Urls.SignedPathIgnoresQueryAndFragment(base, rest);
  }

  lemma LowerHexIsUnescaped(s: string)
    requires IsLowerHexSha256(s)
    ensures UriComponent.AllUnescaped(s)
  {
  }

  /**
    Where the host honours the SHA-256 hexadecimal request, the signature is
    the lowercase hexadecimal digest itself: 64 characters and no `%`.
  */
  lemma EvaluateIsDigest(request: Request, secret: string, timestamp: string, hmac: HmacService)
    requires HonoursSha256Hex(hmac)
    ensures var digest := SignHmac256(hmac, GetStringToSign(request, timestamp), secret);
            && IsLowerHexSha256(digest)
            && Evaluate(request, secret, timestamp, hmac) == digest
            && '%' !in Evaluate(request, secret, timestamp, hmac)
  {
    var digest := SignHmac256(hmac, GetStringToSign(request, timestamp), secret);
    LowerHexIsUnescaped(digest);
    UriComponent.EncodeUnescapedIsIdentity(digest);
  }

  /**
    Whatever string the host returns, the signature consists of unescaped
    characters and `%XX` triples, and decoding it gives that string back.
  */
  lemma EvaluateDecodesToDigest(request: Request, secret: string, timestamp: string, hmac: HmacService)
    ensures UriComponent.IsEncoded(Evaluate(request, secret, timestamp, hmac))
    ensures UriComponent.PercentDecode(Evaluate(request, secret, timestamp, hmac))
            == Some(SignHmac256(hmac, GetStringToSign(request, timestamp), secret))
  {
    UriComponent.DecodeEncode(SignHmac256(hmac, GetStringToSign(request, timestamp), secret));
  }

  /**
    The percent-encoding step loses nothing: two signatures differ whenever
    the host's digests of the two strings to sign, each under its own
    secret, differ. With `StringToSignDeterminesTimestamp` this carries
    different timestamps for one request as far as the host's HMAC; the
    secret reaches the host unchanged as its key.
  */
  lemma EvaluateSeparatesDigests(
    r1: Request, t1: string, s1: string, r2: Request, t2: string, s2: string, hmac: HmacService)
    requires SignHmac256(hmac, GetStringToSign(r1, t1), s1) != SignHmac256(hmac, GetStringToSign(r2, t2), s2)
    ensures Evaluate(r1, s1, t1, hmac) != Evaluate(r2, s2, t2, hmac)
  {
    EvaluateDecodesToDigest(r1, s1, t1, hmac);
    EvaluateDecodesToDigest(r2, s2, t2, hmac);
  }

  /**
    `GET https://api.example.com/v1/docs/123?foo=bar` is signed over
    `/docs/123`: the first segment and the query are not part of it.
  */
  lemma ExampleWithPathAndQuery()
    ensures GetStringToSign(Request("GET", "https://api.example.com/v1/docs/123?foo=bar"), "20240101T000000Z")
            == "GET+/docs/123+20240101T000000Z"
  {
    ExampleSignedPath();
    ExampleConcatenation();
  }

  /** The literal concatenation step of `ExampleWithPathAndQuery`, kept apart to keep its proof small. */
  lemma ExampleConcatenation()
    ensures "GET" + "+" + "/docs/123" + "+" + "20240101T000000Z" == "GET+/docs/123+20240101T000000Z"
  {
    assert "GET" + "+" + "/docs/123" == "GET+/docs/123";
  }

  lemma ExampleSignedPath()
    ensures Urls.SignedPath("https://api.example.com/v1/docs/123?foo=bar") == "/docs/123"
  {
    ExampleUrlPath();
    ExamplePathWithoutFirstSegment();
  }

  lemma ExampleUrlPath()
    ensures Urls.Parse("https://api.example.com/v1/docs/123?foo=bar").path == "/v1/docs/123"
  {
    var u := Urls.Uri(Some("https"), Some("api.example.com"), "/v1/docs/123", Some("foo=bar"), None);
    ExampleBuild();
    HttpsIsScheme();
    assert Urls.WellFormed(u);
    Urls.ParseBuild(u);
  }

  lemma ExampleBuild()
    ensures Urls.Build(Urls.Uri(Some("https"), Some("api.example.com"), "/v1/docs/123", Some("foo=bar"), None))
            == "https://api.example.com/v1/docs/123?foo=bar"
  {
    var head := "https" + ":" + ("//" + "api.example.com");
    assert head == "https://api.example.com";
    var hp := head + "/v1/docs/123";
    assert hp == "https://api.example.com/v1/docs/123";
    assert hp + ("?" + "foo=bar") + "" == "https://api.example.com/v1/docs/123?foo=bar";
  }

  lemma ExamplePathWithoutFirstSegment()
    ensures Urls.PathnameWithoutFirstSegment("/v1/docs/123") == "/docs/123"
  {
    var segs := ["v1", "docs", "123"];
    assert segs[1..] == ["docs", "123"];
    assert segs[1..][1..] == ["123"];
    assert Join(["docs", "123"], '/') == "docs" + "/" + "123";
    assert Join(segs, '/') == "v1" + "/" + "docs/123";
    assert "/" + Join(segs, '/') == "/v1/docs/123";
    Urls.DropsFirstSegment(segs);
  }

  /** A trailing slash is an empty last segment, and it is kept. */
  lemma ExampleTrailingSlash()
    ensures Urls.PathnameWithoutFirstSegment("/v1/docs/") == "/docs/"
  {
    var segs := ["v1", "docs", ""];
    assert segs[1..] == ["docs", ""];
    assert segs[1..][1..] == [""];
    assert Join(["docs", ""], '/') == "docs" + "/" + "";
    assert Join(segs, '/') == "v1" + "/" + "docs/";
    assert "/" + Join(segs, '/') == "/v1/docs/";
    Urls.DropsFirstSegment(segs);
  }

  /** `https` is a scheme; a literal fact kept apart to keep the example proofs small. */
  lemma HttpsIsScheme()
    ensures Urls.IsScheme("https")
  {
    forall i | 0 <= i < 5 ensures Urls.IsSchemeChar("https"[i]) {
    }
  }

  /** `POST https://api.example.com` is signed over the path `/`. */
  lemma ExampleHostOnly(timestamp: string)
    ensures GetStringToSign(Request("POST", "https://api.example.com"), timestamp) == "POST+/+" + timestamp
  {
    ExampleHostOnlySignedPath();
    ExampleHostOnlyConcatenation(timestamp);
  }

  /** The literal concatenation step of `ExampleHostOnly`, kept apart to keep its proof small. */
  lemma ExampleHostOnlyConcatenation(timestamp: string)
    ensures "POST" + "+" + "/" + "+" + timestamp == "POST+/+" + timestamp
  {
    assert "POST" + "+" + "/" + "+" == "POST+/+";
  }

  lemma ExampleHostOnlySignedPath()
    ensures Urls.SignedPath("https://api.example.com") == "/"
  {
    HttpsIsScheme();
    assert "https" + "://" + "api.example.com" == "https://api.example.com";
    Urls.HostOnlyUrlSignsSlash("https", "api.example.com");
  }
}
