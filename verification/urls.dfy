/**
 * `LinkValidator.is_url`: a target is a URL when `urllib.parse.urlparse`
 * finds both a scheme and a network location in it (sections 3.1 and 3.2
 * of RFC 3986, as CPython's `urlsplit` reads them).
 */
module Urls {
  import opened Text

  /** `urllib.parse.scheme_chars`. */
  predicate IsSchemeChar(c: char)
  {
    ('a' <= c <= 'z') || ('A' <= c <= 'Z') || ('0' <= c <= '9') || c == '+' || c == '-' || c == '.'
  }

  predicate IsAsciiLetter(c: char)
  {
    ('a' <= c <= 'z') || ('A' <= c <= 'Z')
  }

  /** Leading C0 control characters and spaces, which `urlsplit` strips. */
  function StripLeadingControls(s: string): (r: string)
    ensures |r| <= |s| && r == s[|s| - |r|..]
    ensures forall i :: 0 <= i < |s| - |r| ==> s[i] <= ' '
    ensures r == [] || r[0] > ' '
  {
    if s != [] && s[0] <= ' ' then StripLeadingControls(s[1..]) else s
  }

  predicate IsUnsafe(c: char)
  {
    c == '\t' || c == '\r' || c == '\n'
  }

  /** Tabs and line breaks, which `urlsplit` deletes anywhere; every other
      character is kept, in order (`RemoveUnsafeConcat`). */
  function RemoveUnsafe(s: string): (r: string)
    ensures forall i :: 0 <= i < |r| ==> !IsUnsafe(r[i])
    ensures |r| <= |s|
    ensures r == [] <==> forall i :: 0 <= i < |s| ==> IsUnsafe(s[i])
    ensures (forall i :: 0 <= i < |s| ==> !IsUnsafe(s[i])) ==> r == s
  {
    if s == [] then []
    else (if IsUnsafe(s[0]) then [] else [s[0]]) + RemoveUnsafe(s[1..])
  }

  /** Deleting the unsafe characters works piece by piece, so the kept
      characters stay in their order. */
  lemma {:induction false} RemoveUnsafeConcat(a: string, b: string)
    ensures RemoveUnsafe(a + b) == RemoveUnsafe(a) + RemoveUnsafe(b)
    decreases |a|
  {
    if a == [] {
      assert a + b == b;
    } else {
      assert (a + b)[1..] == a[1..] + b;
      RemoveUnsafeConcat(a[1..], b);
      var h: string := if IsUnsafe(a[0]) then [] else [a[0]];
      assert RemoveUnsafe(a + b) == h + (RemoveUnsafe(a[1..]) + RemoveUnsafe(b));
      assert h + (RemoveUnsafe(a[1..]) + RemoveUnsafe(b)) == (h + RemoveUnsafe(a[1..])) + RemoveUnsafe(b);
    }
  }

  /** The text `urlsplit` parses. */
  function Cleaned(link: string): string
  {
    RemoveUnsafe(StripLeadingControls(link))
  }

  /** The scheme and network location `urlsplit` reports.  The scheme is
      kept in its original case: `is_url` only asks whether it is empty. */
  datatype UrlParts = UrlParts(scheme: string, netloc: string)

  predicate HasScheme(u: string)
  {
    var i := IndexOf(u, ':');
    0 < i < |u| && IsAsciiLetter(u[0]) && forall j :: 0 <= j < i ==> IsSchemeChar(u[j])
  }

  function UrlSplit(link: string): UrlParts
  {
    var u := Cleaned(link);
    var i := IndexOf(u, ':');
    var scheme := if HasScheme(u) then u[..i] else "";
    var rest := if HasScheme(u) then u[i + 1..] else u;
    var netloc := if StartsWith(rest, "//") then rest[2..NetlocEnd(rest)] else "";
    UrlParts(scheme, netloc)
  }

  /** End of the network location: the first '/', '?' or '#' after the
      leading "//", or the end. */
  function NetlocEnd(rest: string): (k: nat)
    requires |rest| >= 2
    ensures 2 <= k <= |rest|
    ensures k < |rest| ==> rest[k] in "/?#"
    ensures forall j :: 2 <= j < k ==> rest[j] !in "/?#"
  {
    FirstDelimiter(rest, 2)
  }

  function FirstDelimiter(s: string, from: nat): (k: nat)
    requires from <= |s|
    ensures from <= k <= |s|
    ensures k < |s| ==> s[k] in "/?#"
    ensures forall j :: from <= j < k ==> s[j] !in "/?#"
    decreases |s| - from
  {
    if from == |s| || s[from] in "/?#" then from else FirstDelimiter(s, from + 1)
  }

  /** `is_url`. */
  predicate IsUrl(link: string)
  {
    UrlSplit(link).scheme != "" && UrlSplit(link).netloc != ""
  }

  /** The shape of a URL, read independently of `urlsplit`'s steps: a scheme
      of scheme characters starting with a letter, then "://", then a
      character that does not end the network location at once. */
  predicate UrlShape(u: string, i: nat)
  {
    && 0 < i && i + 3 < |u|
    && IsAsciiLetter(u[0])
    && (forall j :: 0 <= j < i ==> IsSchemeChar(u[j]))
    && u[i] == ':' && u[i + 1] == '/' && u[i + 2] == '/'
    && u[i + 3] !in "/?#"
  }

  /** A target is a URL exactly when its cleaned text has the URL shape, at
      its first ':'. */
  lemma IsUrlExactly(link: string)
    ensures IsUrl(link) <==> UrlShape(Cleaned(link), IndexOf(Cleaned(link), ':'))
  {
    hide Cleaned;
    var u := Cleaned(link);
    var i := IndexOf(u, ':');
    if IsUrl(link) {
      assert HasScheme(u);
      var rest := u[i + 1..];
      assert StartsWith(rest, "//");
      assert NetlocEnd(rest) > 2;
      assert rest[2] !in "/?#";
    }
    if UrlShape(u, i) {
      assert HasScheme(u);
      var rest := u[i + 1..];
      assert rest[..2] == "//";
      assert rest[2] == u[i + 3];
      assert NetlocEnd(rest) > 2;
    }
  }

  /** Any position with the URL shape is the first ':' (scheme characters
      never include ':'), so the shape anywhere makes a URL. */
  lemma UrlShapeMakesUrl(link: string, i: nat)
    requires UrlShape(Cleaned(link), i)
    ensures IsUrl(link)
  {
    hide Cleaned;
    var u := Cleaned(link);
    assert IndexOf(u, ':') == i by {
      IndexOfFirst(u, i, ':');
    }
    IsUrlExactly(link);
  }

  lemma IndexOfFirst(s: string, i: nat, c: char)
    requires i < |s| && s[i] == c && forall j :: 0 <= j < i ==> s[j] != c
    ensures IndexOf(s, c) == i
  {
    assert c !in s[..i];
  }
}
