/**
  The two URL helpers: `absolutize_url`, which joins a site root and a path
  with exactly one `/` between them, and `schemeful_domain`, which reduces a
  URL to the root of its site, `scheme://netloc/`.

  `urlparse` is modelled by the part of Python's `urlsplit` that finds the
  scheme and the network location.
*/
module Urls {
  import opened Wrappers

  predicate EndsWithSlash(s: string) {
    |s| > 0 && s[|s| - 1] == '/'
  }

  predicate StartsWithSlash(s: string) {
    |s| > 0 && s[0] == '/'
  }

  /** `s` without its final `/`, if it has one. */
  function TrimEnd(s: string): (t: string)
    ensures EndsWithSlash(s) ==> s == t + "/"
    ensures !EndsWithSlash(s) ==> t == s
  {
    if EndsWithSlash(s) then s[..|s| - 1] else s
  }

  /** `s` without its first `/`, if it has one. */
  function TrimStart(s: string): (t: string)
    ensures StartsWithSlash(s) ==> s == "/" + t
    ensures !StartsWithSlash(s) ==> t == s
  {
    if StartsWithSlash(s) then s[1..] else s
  }

  /**
    `absolutize_url(address, path)`. When neither side carries the slash the
    helper falls off its `if`/`elif` and returns `None`.
  */
  function AbsolutizeUrl(address: string, path: string): (r: Option<string>)
    ensures r.Some? <==> EndsWithSlash(address) || StartsWithSlash(path)
    ensures r.Some? ==> r.value == TrimEnd(address) + ("/" + TrimStart(path))
    ensures r.Some? ==> address <= r.value
    ensures r.Some? ==> |TrimStart(path)| <= |r.value| && r.value[|r.value| - |TrimStart(path)|..] == TrimStart(path)
  {
    if EndsWithSlash(address) != StartsWithSlash(path) then Some(address + path)
    else if EndsWithSlash(address) && StartsWithSlash(path) then Some(address + path[1..])
    else None
  }

  // ---------------------------------------------------------------------
  // Splitting a URL

  /** The scheme and network location `urlparse` finds in a URL. */
  datatype UrlParts = UrlParts(scheme: string, netloc: string)

  predicate IsAsciiLetter(c: char) {
    ('a' <= c <= 'z') || ('A' <= c <= 'Z')
  }

  /** The characters Python allows in a URL scheme. */
  predicate IsSchemeChar(c: char) {
    IsAsciiLetter(c) || ('0' <= c <= '9') || c == '+' || c == '-' || c == '.'
  }

  /** Index of the first occurrence of `c` in `s`, or `|s|` if there is none. */
  function Find(s: string, c: char): (i: nat)
    ensures i <= |s|
    ensures i < |s| ==> s[i] == c
    ensures forall k :: 0 <= k < i ==> s[k] != c
  {
    if s == [] then 0
    else if s[0] == c then 0
    else 1 + Find(s[1..], c)
  }

  /** Index of the first character of `s` that ends a network location (`/`, `?` or `#`), or `|s|`. */
  function NetlocEnd(s: string): (i: nat)
    ensures i <= |s|
    ensures i < |s| ==> s[i] in "/?#"
    ensures forall k :: 0 <= k < i ==> s[k] !in "/?#"
  {
    if s == [] then 0
    else if s[0] in "/?#" then 0
    else 1 + NetlocEnd(s[1..])
  }

  function Lower(c: char): char {
    if 'A' <= c <= 'Z' then (c as int + 32) as char else c
  }

  /** ASCII lower-casing; scheme characters are all ASCII, so this is Python's `str.lower` on them. */
  function LowerAscii(s: string): (t: string)
    ensures |t| == |s|
    ensures forall i :: 0 <= i < |s| ==> t[i] == Lower(s[i])
  {
    seq(|s|, i requires 0 <= i < |s| => Lower(s[i]))
  }

  /** The text before the first `:` is a scheme: non-empty, starting with a letter, all scheme characters. */
  predicate HasScheme(url: string) {
    var i := Find(url, ':');
    && 0 < i < |url|
    && IsAsciiLetter(url[0])
    && (forall k :: 0 <= k < i ==> IsSchemeChar(url[k]))
  }

  /**
    `urlparse(url)`, reduced to its scheme and network location: the scheme is
    taken off the front when there is one, and the network location is what
    follows a `//` up to the next `/`, `?` or `#`.
  */
  function UrlSplit(url: string): UrlParts {
    var i := Find(url, ':');
    var scheme := if HasScheme(url) then LowerAscii(url[..i]) else "";
    var rest := if HasScheme(url) then url[i + 1..] else url;
    var netloc :=
      if |rest| >= 2 && rest[..2] == "//" then rest[2..][..NetlocEnd(rest[2..])] else "";
    UrlParts(scheme, netloc)
  }

  /** `schemeful_domain(target_url)`: `scheme://netloc/`. */
  function SchemefulDomain(url: string): (r: string)
    ensures EndsWithSlash(r)
    ensures UrlSplit(url).scheme + "://" <= r
  {
    var p := UrlSplit(url);
    p.scheme + ("://" + (p.netloc + "/"))
  }

  /** A well-formed scheme, in any letter case: an ASCII letter first, then scheme characters. */
  predicate Scheme(s: string) {
    && s != []
    && IsAsciiLetter(s[0])
    && (forall k :: 0 <= k < |s| ==> IsSchemeChar(s[k]))
  }

  /** A host name: no character that would end the network location. */
  predicate Host(h: string) {
    forall k :: 0 <= k < |h| ==> h[k] !in "/?#"
  }

  /**
    `urlparse` takes `scheme://host` apart again, whatever path, query or
    fragment follows the host; the scheme comes back lower-cased.
  */
  lemma {:induction false} UrlSplitOfParts(s: string, h: string, rest: string)
    requires Scheme(s) && Host(h)
    requires rest == [] || rest[0] in "/?#"
    ensures UrlSplit(s + ("://" + (h + rest))) == UrlParts(LowerAscii(s), h)
  {
    var url := s + ("://" + (h + rest));
    var after := "//" + (h + rest);
    assert url == s + (":" + after);
    FindAfter(s, ':', after);
    assert url[..|s|] == s;
    assert url[|s| + 1..] == after;
    assert after[..2] == "//";
    assert after[2..] == h + rest;
    NetlocEndAfter(h, rest);
    assert (h + rest)[..|h|] == h;
  }

  lemma {:induction false} FindAfter(s: string, c: char, x: string)
    requires forall k :: 0 <= k < |s| ==> s[k] != c
    ensures Find(s + ([c] + x), c) == |s|
  {
    var t := s + ([c] + x);
    assert t[|s|] == c;
  }

  lemma {:induction false} NetlocEndAfter(h: string, rest: string)
    requires Host(h)
    requires rest == [] || rest[0] in "/?#"
    ensures NetlocEnd(h + rest) == |h|
  {
    var t := h + rest;
    if |h| < |t| {
      assert t[|h|] == rest[0];
    }
    assert forall k :: 0 <= k < |h| ==> t[k] == h[k];
  }

  /**
    The site root of `scheme://host/…` is `scheme://host/` with the scheme
    lower-cased, as the helper's tests expect of `https://example.com/path`.
  */
  lemma {:induction false} SiteRootOf(s: string, h: string, rest: string)
    requires Scheme(s) && Host(h)
    requires rest == [] || rest[0] in "/?#"
    ensures SchemefulDomain(s + ("://" + (h + rest))) == LowerAscii(s) + ("://" + (h + "/"))
  {
    UrlSplitOfParts(s, h, rest);
  }
}
