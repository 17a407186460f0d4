/**
  The part of the urijs library that `URI(url).segment(0, "").pathname()`
  uses: parsing a URL string into scheme, authority, path, query and
  fragment, reading the path as segments, splicing the first segment out
  and reading the stored path. `Build`, which writes the parts back, is the
  model's own inverse of `Parse`, not the urijs href.
*/
module Urls {
  import opened Wrappers
  import opened Text

  /**
    A parsed URI reference. `authority` is present when the string has a
    `//` authority part (user information, host and port are not told
    apart). `query` and `fragment` are the text after `?` and `#`.
  */
  datatype Uri = Uri(
    scheme: Option<string>,
    authority: Option<string>,
    path: string,
    query: Option<string>,
    fragment: Option<string>)

  predicate IsAsciiLetter(c: char) {
    'a' <= c <= 'z' || 'A' <= c <= 'Z'
  }

  predicate IsSchemeChar(c: char) {
    IsAsciiLetter(c) || '0' <= c <= '9' || c == '+' || c == '-' || c == '.'
  }

  /** A scheme is a letter followed by letters, digits, `+`, `-` and `.`. */
  predicate IsScheme(s: string) {
    |s| >= 1 && IsAsciiLetter(s[0]) && forall i :: 0 <= i < |s| ==> IsSchemeChar(s[i])
  }

  predicate StartsWithTwoSlashes(s: string) {
    |s| >= 2 && s[0] == '/' && s[1] == '/'
  }

  /** Where `s` has the form `scheme://...`, the position of the colon. */
  function SchemeEnd(s: string): (r: Option<nat>)
    ensures r.Some? ==> r.value + 3 <= |s| && IsScheme(s[..r.value])
                        && s[r.value] == ':' && s[r.value + 1] == '/' && s[r.value + 2] == '/'
  {
    match IndexOf(s, ':')
    case None => None
    case Some(i) =>
      if IsScheme(s[..i]) && i + 3 <= |s| && s[i + 1] == '/' && s[i + 2] == '/' then Some(i) else None
  }

  /** The authority runs up to the first `/`; the path is the rest, starting with that `/`. */
  function SplitAuthority(s: string): (r: (string, string))
    ensures r.0 + r.1 == s
    ensures '/' !in r.0
    ensures r.1 == "" || r.1[0] == '/'
  {
    match IndexOf(s, '/')
    case None => (s, "")
    case Some(i) =>
      assert s == s[..i] + s[i..];
      (s[..i], s[i..])
  }

  /** The scheme and authority prefix that `Build` writes. */
  function Head(scheme: Option<string>, authority: Option<string>): string {
    (if scheme.Some? then scheme.value + ":" else "")
    + (if authority.Some? then "//" + authority.value else "")
  }

  /** Scheme, authority and path of a URL from which query and fragment are already cut off. */
  function SplitHierarchy(s: string): (r: (Option<string>, Option<string>, string))
    ensures Head(r.0, r.1) + r.2 == s
    ensures r.0.Some? ==> IsScheme(r.0.value) && r.1.Some?
    ensures r.1.Some? ==> '/' !in r.1.value && (r.2 == "" || r.2[0] == '/')
    ensures r.1.None? ==> r.2 == s && !StartsWithTwoSlashes(s) && SchemeEnd(s).None?
  {
    if StartsWithTwoSlashes(s) then
      var ap := SplitAuthority(s[2..]);
      HeadAfterTwoSlashes(s, ap.0, ap.1);
      (None, Some(ap.0), ap.1)
    else
      match SchemeEnd(s)
      case Some(i) =>
        var ap := SplitAuthority(s[i + 3..]);
        HeadAfterScheme(s, i, ap.0, ap.1);
        (Some(s[..i]), Some(ap.0), ap.1)
      case None => (None, None, s)
  }

  lemma HeadAfterTwoSlashes(s: string, authority: string, path: string)
    requires StartsWithTwoSlashes(s) && authority + path == s[2..]
    ensures Head(None, Some(authority)) + path == s
  {
    assert s == s[..2] + s[2..];
    assert s[..2] == "//";
  }

  lemma HeadAfterScheme(s: string, i: nat, authority: string, path: string)
    requires i + 3 <= |s| && s[i] == ':' && s[i + 1] == '/' && s[i + 2] == '/'
    requires authority + path == s[i + 3..]
    ensures Head(Some(s[..i]), Some(authority)) + path == s
  {
    assert s == s[..i] + s[i..i + 3] + s[i + 3..];
    assert s[i..i + 3] == ":" + "//";
  }

  /**
    What this model takes a parsed `Uri` to be: a scheme only together with
    an authority, an authority without `/`, `?` or `#`, a path without `?` or
    `#` that starts with `/` under an authority and cannot be read as
    `//authority` or `scheme://` without one, and a query without `#`.
  */
  predicate WellFormed(u: Uri) {
    && (u.scheme.Some? ==> IsScheme(u.scheme.value) && u.authority.Some?)
    && (u.authority.Some? ==>
          && '/' !in u.authority.value && '?' !in u.authority.value && '#' !in u.authority.value
          && (u.path == "" || u.path[0] == '/'))
    && (u.authority.None? ==> !StartsWithTwoSlashes(u.path) && SchemeEnd(u.path).None?)
    && '?' !in u.path && '#' !in u.path
    && (u.query.Some? ==> '#' !in u.query.value)
  }

  /**
    `URI(s)`: the fragment is everything after the first `#`, the query
    everything after the first `?` before it; what remains is scheme,
    authority and path.
  */
  function Parse(s: string): (u: Uri)
    ensures WellFormed(u)
  {
    var f := SplitAtFirst(s, '#');
    var q := SplitAtFirst(f.0, '?');
    var h := SplitHierarchy(q.0);
    Uri(h.0, h.1, h.2, q.1, f.1)
  }

  /**
    The parts of a `Uri` written back with their delimiters. This is the
    model's own inverse of `Parse`, which pins down the parts `Parse`
    returns; it is not the urijs href, which normalises (a `/` after a bare
    host, no empty `?` or `#`).
  */
  function Build(u: Uri): string {
    Head(u.scheme, u.authority)
    + u.path
    + Delimited('?', u.query)
    + Delimited('#', u.fragment)
  }

  /** Parsing loses nothing: the parts of any string put back together give the string. */
  lemma BuildParse(s: string)
    ensures Build(Parse(s)) == s
  {
    var f := SplitAtFirst(s, '#');
    var q := SplitAtFirst(f.0, '?');
    var h := SplitHierarchy(q.0);
    SplitAtFirstRejoins(s, '#');
    SplitAtFirstRejoins(f.0, '?');
    assert Build(Parse(s)) == Head(h.0, h.1) + h.2 + Delimited('?', q.1) + Delimited('#', f.1);
  }

  lemma SplitAtFirstRejoins(s: string, c: char)
    ensures SplitAtFirst(s, c).0 + Delimited(c, SplitAtFirst(s, c).1) == s
  {
  }

  lemma SplitHierarchyOfHead(u: Uri)
    requires WellFormed(u)
    ensures SplitHierarchy(Head(u.scheme, u.authority) + u.path) == (u.scheme, u.authority, u.path)
  {
    if u.scheme.Some? {
      SplitHierarchyWithScheme(u.scheme.value, u.authority.value, u.path);
    } else if u.authority.Some? {
      var s := Head(u.scheme, u.authority) + u.path;
      assert s == "//" + (u.authority.value + u.path);
      assert s[2..] == u.authority.value + u.path;
      SplitAuthorityOf(u.authority.value, u.path);
    } else {
      assert Head(u.scheme, u.authority) + u.path == u.path;
    }
  }

  lemma SplitHierarchyWithScheme(sc: string, a: string, path: string)
    requires IsScheme(sc) && '/' !in a
    requires path == "" || path[0] == '/'
    ensures SplitHierarchy(Head(Some(sc), Some(a)) + path) == (Some(sc), Some(a), path)
  {
    var tail := "//" + (a + path);
    var s := sc + [':'] + tail;
    assert Head(Some(sc), Some(a)) + path == s;
    SchemeEndOf(sc, tail);
    assert !StartsWithTwoSlashes(s) by {
      assert s[0] == sc[0];
    }
    assert s[|sc| + 3..] == a + path;
    assert s[..|sc|] == sc;
    SplitAuthorityOf(a, path);
  }

  lemma SchemeEndOf(sc: string, tail: string)
    requires IsScheme(sc) && StartsWithTwoSlashes(tail)
    ensures SchemeEnd(sc + [':'] + tail) == Some(|sc|)
  {
    var s := sc + [':'] + tail;
    assert ':' !in sc;
    IndexOfAfter(sc, ':', tail);
    assert s[..|sc|] == sc;
  }

  lemma SplitAuthorityOf(a: string, path: string)
    requires '/' !in a
    requires path == "" || path[0] == '/'
    ensures SplitAuthority(a + path) == (a, path)
  {
    var s := a + path;
    if path == "" {
      assert s == a;
    } else {
      assert path == [path[0]] + path[1..];
      IndexOfAfter(a, '/', path[1..]);
      assert s == a + ['/'] + path[1..];
      assert s[..|a|] == a && s[|a|..] == path;
    }
  }

  /** The delimited optional part `Build` writes: nothing, or `c` and the text. */
  function Delimited(c: char, part: Option<string>): string {
    if part.Some? then [c] + part.value else ""
  }

  lemma SplitAtFirstDelimited(a: string, c: char, part: Option<string>)
    requires c !in a
    ensures SplitAtFirst(a + Delimited(c, part), c) == (a, part)
  {
    if part.Some? {
      assert a + Delimited(c, part) == a + [c] + part.value;
      SplitAtFirstAfter(a, c, part.value);
    } else {
      assert a + Delimited(c, part) == a;
    }
  }

  lemma HeadLacks(u: Uri, c: char)
    requires WellFormed(u)
    requires c == '#' || c == '?'
    ensures c !in Head(u.scheme, u.authority)
  {
  }

  /** On a well-formed `Uri`, parsing what `Build` writes gives it back. */
  lemma ParseBuild(u: Uri)
    requires WellFormed(u)
    ensures Parse(Build(u)) == u
  {
    var hp := Head(u.scheme, u.authority) + u.path;
    var hq := hp + Delimited('?', u.query);
    assert Build(u) == hq + Delimited('#', u.fragment);
    HeadLacks(u, '#');
    HeadLacks(u, '?');
    assert '#' !in hq;
    SplitAtFirstDelimited(hq, '#', u.fragment);
    SplitAtFirstDelimited(hp, '?', u.query);
    SplitHierarchyOfHead(u);
  }

  /** urijs reads a path as absolute when it starts with `/`. */
  predicate IsAbsolute(path: string) {
    |path| > 0 && path[0] == '/'
  }

  /**
    `segment()` of urijs: the path split at `/`, without the empty piece that
    stands before the `/` of an absolute path. There is always one segment.
  */
  function Segments(path: string): (segs: seq<string>)
    ensures |segs| >= 1
    ensures forall i :: 0 <= i < |segs| ==> '/' !in segs[i]
  {
    var all := Split(path, '/');
    if IsAbsolute(path) then all[1..] else all
  }

  /**
    The path urijs stores after `segment(0, "")`. Segment 0 always exists,
    so the empty value splices it out; an absolute path gets its empty
    leading piece back before the segments are joined with `/`.
  */
  function RemoveFirstSegment(path: string): string {
    var rest := Segments(path)[1..];
    Join(if IsAbsolute(path) then [""] + rest else rest, '/')
  }

  /** The urijs path setter stores `/` in place of an empty path. */
  function StoredPath(v: string): (p: string)
    ensures p != ""
  {
    if v == "" then "/" else v
  }

  /** `segment(0, "").pathname()` on a URI whose path is `path`. */
  function PathnameWithoutFirstSegment(path: string): string {
    StoredPath(RemoveFirstSegment(path))
  }

  /** `URI(url).segment(0, "").pathname()`. */
  function SignedPath(url: string): string {
    PathnameWithoutFirstSegment(Parse(url).path)
  }

  /** For the absolute path `/s0/s1/.../sn` the result is `/s1/.../sn`; a trailing empty segment stays. */
  lemma {:induction false} DropsFirstSegment(segs: seq<string>)
    requires |segs| >= 1
    requires forall i :: 0 <= i < |segs| ==> '/' !in segs[i]
    ensures PathnameWithoutFirstSegment("/" + Join(segs, '/')) == "/" + Join(segs[1..], '/')
  {
    var path := "/" + Join(segs, '/');
    assert path == "" + ['/'] + Join(segs, '/');
    SplitAfterPiece("", Join(segs, '/'), '/');
    SplitJoin(segs, '/');
    assert Segments(path) == segs;
    var rest := segs[1..];
    if |rest| > 0 {
      assert ([""] + rest)[1..] == rest;
    }
  }

  /** For the relative path `s0/s1/.../sn` the result is `s1/.../sn`, or `/` when that is empty. */
  lemma {:induction false} DropsFirstRelativeSegment(segs: seq<string>)
    requires |segs| >= 1 && segs[0] != ""
    requires forall i :: 0 <= i < |segs| ==> '/' !in segs[i]
    ensures PathnameWithoutFirstSegment(Join(segs, '/')) == StoredPath(Join(segs[1..], '/'))
  {
    var path := Join(segs, '/');
    SplitJoin(segs, '/');
    assert path[0] == segs[0][0];
    assert !IsAbsolute(path);
  }

  /** When the path has no segment besides the first, `/` is what is read. */
  lemma OnlySegmentLeavesSlash(path: string)
    requires |Segments(path)| == 1
    ensures PathnameWithoutFirstSegment(path) == "/"
  {
  }

  /** A character other than `/` that the path lacks does not appear in the result. */
  lemma {:induction false} PathnameAvoids(path: string, c: char)
    requires c != '/' && c !in path
    ensures c !in PathnameWithoutFirstSegment(path)
  {
    SplitAvoids(path, '/', c);
    var segs := Segments(path);
    var rest := segs[1..];
    var pieces := if IsAbsolute(path) then [""] + rest else rest;
    assert forall i :: 0 <= i < |pieces| ==> c !in pieces[i] by {
      forall i | 0 <= i < |pieces| ensures c !in pieces[i] {
        var all := Split(path, '/');
        if IsAbsolute(path) {
          if i > 0 {
            assert pieces[i] == all[i + 1];
          }
        } else {
          assert pieces[i] == all[i + 1];
        }
      }
    }
    JoinAvoids(pieces, '/', c);
  }

  /** Neither the query string nor the fragment ever reaches the signed path. */
  lemma SignedPathExcludesQueryAndFragment(url: string)
    ensures '?' !in SignedPath(url) && '#' !in SignedPath(url)
  {
    PathnameAvoids(Parse(url).path, '?');
    PathnameAvoids(Parse(url).path, '#');
  }

  /** A URL that is only `scheme://authority` is signed with the path `/`. */
  lemma HostOnlyUrlSignsSlash(scheme: string, authority: string)
    requires IsScheme(scheme)
    requires '/' !in authority && '?' !in authority && '#' !in authority
    ensures SignedPath(scheme + "://" + authority) == "/"
  {
    var u := Uri(Some(scheme), Some(authority), "", None, None);
    assert Build(u) == scheme + "://" + authority;
    ParseBuild(u);
  }

  /** What `Parse` reads scheme, authority and path from: the text before the first `?` and `#`. */
  function BeforeQuery(s: string): string {
    SplitAtFirst(SplitAtFirst(s, '#').0, '?').0
  }

  lemma ParsedPathOf(s: string)
    ensures Parse(s).path == SplitHierarchy(BeforeQuery(s)).2
  {
  }

  lemma BeforeQueryIgnoresRest(base: string, rest: string)
    requires '?' !in base && '#' !in base
    requires |rest| > 0 && (rest[0] == '?' || rest[0] == '#')
    ensures BeforeQuery(base + rest) == base
  {
    var s := base + rest;
    var f := SplitAtFirst(s, '#');
    if rest[0] == '#' {
      assert s == base + ['#'] + rest[1..];
      SplitAtFirstAfter(base, '#', rest[1..]);
      assert SplitAtFirst(base, '?') == (base, None);
    } else {
      assert |f.0| > |base| && f.0[..|base|] == base && f.0[|base|] == '?' by {
        if f.1.Some? {
          assert s == f.0 + ['#'] + f.1.value;
          assert s[|f.0|] == '#';
          assert s[|base|] == '?';
          assert f.0[..|base|] == s[..|base|];
        } else {
          assert f.0 == s;
        }
      }
      assert f.0 == base + ['?'] + f.0[|base| + 1..];
      SplitAtFirstAfter(base, '?', f.0[|base| + 1..]);
    }
  }

  /** Whatever follows the first `?` or `#` of a URL does not change the signed path. */
  lemma SignedPathIgnoresQueryAndFragment(base: string, rest: string)
    requires '?' !in base && '#' !in base
    requires |rest| > 0 && (rest[0] == '?' || rest[0] == '#')
    ensures SignedPath(base + rest) == SignedPath(base)
  {
    ParsedPathOf(base + rest);
    ParsedPathOf(base);
    BeforeQueryIgnoresRest(base, rest);
    assert SplitAtFirst(base, '#') == (base, None);
    assert SplitAtFirst(base, '?') == (base, None);
  }
}
