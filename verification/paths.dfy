/**
 * Paths as the link validator's `pathlib.Path` and `os.path` calls see them.
 * A path is the sequence of its components below `/`; the empty sequence
 * is `/` itself.  A path built lexically by `pathlib` may contain "..",
 * which `pathlib` keeps; `os.path.normpath` removes it.
 */
module Paths {
  import opened Text

  type Name = string

  /** An absolute path: its components from the filesystem root down. */
  type Path = seq<Name>

  /** A component as `pathlib` keeps it after parsing: not empty, not ".",
      free of the separator.  ".." is a proper component. */
  predicate ProperName(n: Name)
  {
    n != "" && n != "." && '/' !in n
  }

  /** A proper component that is not "..": what a directory entry can be called. */
  predicate PlainName(n: Name)
  {
    ProperName(n) && n != ".."
  }

  predicate AllProper(p: seq<Name>)
  {
    forall i :: 0 <= i < |p| ==> ProperName(p[i])
  }

  predicate AllPlain(p: seq<Name>)
  {
    forall i :: 0 <= i < |p| ==> PlainName(p[i])
  }

  /** `Path.parent`: the root is its own parent. */
  function Parent(p: Path): (r: Path)
    ensures |p| > 0 ==> |r| == |p| - 1 && p == r + [p[|p| - 1]]
    ensures p == [] ==> r == []
  {
    if p == [] then [] else p[..|p| - 1]
  }

  /** `Path.name`: the last component, or "" for the root. */
  function LastName(p: Path): Name
  {
    if p == [] then "" else p[|p| - 1]
  }

  predicate IsPrefix(a: Path, b: Path)
  {
    |a| <= |b| && b[..|a|] == a
  }

  /** The components of a path string, as `PurePosixPath(s).parts` gives
      them below the root: empty components and "." are dropped. */
  function Components(s: string): (r: seq<Name>)
    ensures AllProper(r)
  {
    SplitFree(s, '/');
    DropTrivial(Split(s, '/'))
  }

  function DropTrivial(parts: seq<string>): (r: seq<Name>)
    requires forall i :: 0 <= i < |parts| ==> '/' !in parts[i]
    ensures AllProper(r)
    ensures (forall i :: 0 <= i < |parts| ==> ProperName(parts[i])) ==> r == parts
  {
    if parts == [] then []
    else if parts[0] == "" || parts[0] == "." then DropTrivial(parts[1..])
    else [parts[0]] + DropTrivial(parts[1..])
  }

  predicate IsAbsolute(s: string)
  {
    |s| > 0 && s[0] == '/'
  }

  /** `base / s`: an absolute `s` replaces `base`. */
  function JoinPath(base: Path, s: string): (r: Path)
    ensures !IsAbsolute(s) ==> IsPrefix(base, r)
  {
    if IsAbsolute(s) then Components(s) else base + Components(s)
  }

  /** `Path(s).name`. */
  function NameOf(s: string): Name
  {
    LastName(Components(s))
  }

  /** `os.path.normpath` of an absolute path: ".." removes the component
      before it, and is dropped at the root. */
  function Normalize(p: seq<Name>): Path
  {
    NormalizeFrom([], p)
  }

  function NormalizeFrom(acc: Path, p: seq<Name>): Path
    decreases |p|
  {
    if p == [] then acc
    else NormalizeFrom(if p[0] == ".." then Parent(acc) else acc + [p[0]], p[1..])
  }

  /** Length of the longest common prefix (`os.path.commonprefix` on lists). */
  function CommonPrefixLength(a: Path, b: Path): (k: nat)
    ensures k <= |a| && k <= |b|
    ensures a[..k] == b[..k]
    ensures k == |a| || k == |b| || a[k] != b[k]
  {
    if a == [] || b == [] || a[0] != b[0] then 0
    else
      var k' := CommonPrefixLength(a[1..], b[1..]);
      assert a[..k' + 1] == [a[0]] + a[1..][..k'];
      assert b[..k' + 1] == [b[0]] + b[1..][..k'];
      1 + k'
  }

  function Ups(n: nat): (r: seq<Name>)
    ensures |r| == n && forall i :: 0 <= i < n ==> r[i] == ".."
  {
    if n == 0 then [] else [".."] + Ups(n - 1)
  }

  /** The components of `os.path.relpath(target, start)`. */
  function RelComponents(target: seq<Name>, start: seq<Name>): seq<Name>
  {
    var t := Normalize(target);
    var b := Normalize(start);
    var i := CommonPrefixLength(t, b);
    Ups(|b| - i) + t[i..]
  }

  /** `os.path.relpath(target, start)` for absolute paths: "." when they
      are the same directory. */
  function RelPath(target: seq<Name>, start: seq<Name>): string
  {
    var rel := RelComponents(target, start);
    if rel == [] then "." else JoinWith(rel, '/')
  }

  /** `LinkValidator.get_relative_path`: `os.path.relpath` with every
      backslash turned into a slash. */
  function RelativeLink(target: seq<Name>, start: seq<Name>): string
  {
    ReplaceChar(RelPath(target, start), '\\', '/')
  }

  /** The `if not p.startswith('./'): p = './' + p` normalisation. */
  function DotPrefixed(s: string): (r: string)
    ensures StartsWith(r, "./")
    ensures StartsWith(s, "./") ==> r == s
    ensures r == s || r == "./" + s
  {
    if StartsWith(s, "./") then s else "./" + s
  }

  /** `PurePath.suffix` of a name: from its last '.', unless that dot is
      the first or the last character. */
  function Suffix(name: Name): string
  {
    var i := LastIndexOf(name, '.');
    if 0 < i < |name| - 1 then name[i..] else ""
  }

  function LastIndexOf(s: string, c: char): (k: int)
    ensures -1 <= k < |s|
    ensures k >= 0 ==> s[k] == c
    ensures forall j :: k < j < |s| ==> s[j] != c
  {
    if s == [] then -1
    else if s[|s| - 1] == c then |s| - 1
    else LastIndexOf(s[..|s| - 1], c)
  }

  /** `Path.with_suffix('.md')`: the last component loses its suffix and
      gains ".md".  (`pathlib` refuses an empty name; the root is always a
      directory, so the resolver never asks.) */
  function WithMdSuffix(p: Path): Path
  {
    if p == [] then []
    else
      var name := LastName(p);
      Parent(p) + [name[..|name| - |Suffix(name)|] + ".md"]
  }

  /** `str(p.relative_to(base))` for a `p` below `base`. */
  function RelativeToString(p: Path, base: Path): string
    requires IsPrefix(base, p)
  {
    if |p| == |base| then "." else JoinWith(p[|base|..], '/')
  }

  // ---------------------------------------------------------------------
  // Lemmas

  /** A route beginning "/docs/" always has a last component, so its
      `Path(...).name` is never empty. */
  lemma DocsRouteHasName(s: string)
    requires StartsWith(s, "/docs/")
    ensures NameOf(s) != ""
  {
    var parts := Split(s, '/');
    SplitFree(s, '/');
    SplitFree(s[1..], '/');
    assert IndexOf(s, '/') == 0;
    assert parts == [""] + Split(s[1..], '/');
    var t := s[1..];
    assert t[..5] == "docs/";
    assert IndexOf(t, '/') == 4 by {
      IndexOfAfterFree("docs", t[4..], '/');
      assert t == "docs" + t[4..];
    }
    assert t[..4] == "docs";
    assert Split(t, '/') == ["docs"] + Split(t[5..], '/');
    assert DropTrivial(parts) == DropTrivial(Split(t, '/'));
    assert DropTrivial(Split(t, '/')) == ["docs"] + DropTrivial(Split(t[5..], '/'));
  }

  lemma {:induction false} NormalizeFromConcat(acc: Path, a: seq<Name>, b: seq<Name>)
    ensures NormalizeFrom(acc, a + b) == NormalizeFrom(NormalizeFrom(acc, a), b)
    decreases |a|
  {
    if a == [] {
      assert a + b == b;
    } else {
      assert (a + b)[0] == a[0];
      assert (a + b)[1..] == a[1..] + b;
      NormalizeFromConcat(if a[0] == ".." then Parent(acc) else acc + [a[0]], a[1..], b);
    }
  }

  lemma {:induction false} NormalizeFromPlain(acc: Path, p: seq<Name>)
    requires forall i :: 0 <= i < |p| ==> p[i] != ".."
    ensures NormalizeFrom(acc, p) == acc + p
    decreases |p|
  {
    if p != [] {
      NormalizeFromPlain(acc + [p[0]], p[1..]);
      assert acc + [p[0]] + p[1..] == acc + p;
    }
  }

  lemma {:induction false} NormalizeFromUps(acc: Path, n: nat)
    requires n <= |acc|
    ensures NormalizeFrom(acc, Ups(n)) == acc[..|acc| - n]
    decreases n
  {
    if n > 0 {
      assert Ups(n)[1..] == Ups(n - 1);
      NormalizeFromUps(Parent(acc), n - 1);
      assert Parent(acc)[..|Parent(acc)| - (n - 1)] == acc[..|acc| - n];
    }
  }

  /** Normalising keeps proper components and removes every "..". */
  lemma {:induction false} NormalizeFromShape(acc: Path, p: seq<Name>)
    requires AllPlain(acc) && AllProper(p)
    ensures AllPlain(NormalizeFrom(acc, p))
    decreases |p|
  {
    if p != [] {
      NormalizeFromShape(if p[0] == ".." then Parent(acc) else acc + [p[0]], p[1..]);
    }
  }

  /** The components of "./" followed by a string are the string's own. */
  lemma DotSlashComponents(s: string)
    ensures Components("./" + s) == Components(s)
  {
    var d := "./" + s;
    assert IndexOf(d, '/') == 1;
    assert d[2..] == s;
    assert d[..1] == ".";
    assert Split(d, '/') == ["."] + Split(s, '/');
  }

  /** `os.path.relpath` is undone by joining: the relative form of `target`
      seen from `start`, written with the "./" prefix and joined back onto
      `start`, normalises to `target` again. */
  lemma RelPathRoundTrip(target: seq<Name>, start: Path)
    requires AllProper(target) && AllPlain(start)
    ensures Normalize(JoinPath(start, DotPrefixed(RelPath(target, start)))) == Normalize(target)
  {
    var t := Normalize(target);
    NormalizeFromShape([], target);
    NormalizeFromAllPlain(start);
    var i := CommonPrefixLength(t, start);
    var rel := RelComponents(target, start);
    assert rel == Ups(|start| - i) + t[i..];
    if rel == [] {
      SameDirectoryJoin(start);
      assert t == t[..i] == start[..i] == start;
    } else {
      assert AllProper(rel) by {
        forall k | 0 <= k < |rel| ensures ProperName(rel[k]) {
          if k >= |start| - i {
            assert rel[k] == t[i + k - (|start| - i)];
          }
        }
      }
      RelJoin(start, rel);
      RelNormalize(start, t, i);
    }
  }

  lemma SameDirectoryJoin(start: Path)
    ensures JoinPath(start, DotPrefixed(".")) == start
  {
    DotSlashComponents(".");
    assert Split(".", '/') == ["."];
  }

  lemma RelJoin(start: Path, rel: seq<Name>)
    requires rel != [] && AllProper(rel)
    ensures JoinPath(start, DotPrefixed(JoinWith(rel, '/'))) == start + rel
  {
    var s := JoinWith(rel, '/');
    SplitJoin(rel, '/');
    assert Components(s) == rel;
    JoinWithHead(rel, '/');
    DotSlashComponents(s);
  }

  lemma RelNormalize(start: Path, t: Path, i: nat)
    requires i <= |start| && i <= |t| && start[..i] == t[..i]
    requires AllPlain(start) && AllPlain(t)
    ensures Normalize(start + (Ups(|start| - i) + t[i..])) == t
  {
    var ups := Ups(|start| - i);
    var tail := t[i..];
    NormalizeFromConcat([], start, ups + tail);
    NormalizeFromAllPlain(start);
    NormalizeFromConcat(start, ups, tail);
    NormalizeFromUps(start, |start| - i);
    assert forall k :: 0 <= k < |tail| ==> tail[k] != ".." by {
      forall k | 0 <= k < |tail| ensures tail[k] != ".." {
        assert tail[k] == t[i + k];
      }
    }
    NormalizeFromPlain(start[..i], tail);
    assert start[..i] + tail == t;
  }

  lemma NormalizeFromAllPlain(p: Path)
    requires AllPlain(p)
    ensures NormalizeFrom([], p) == p
  {
    NormalizeFromPlain([], p);
  }

  /** A '/'-joined list of proper components does not start with "./". */
  lemma JoinWithHead(parts: seq<string>, sep: char)
    requires |parts| >= 1 && ProperName(parts[0]) && sep == '/'
    ensures !StartsWith(JoinWith(parts, sep), "./")
  {
    var s := JoinWith(parts, sep);
    if |parts| > 1 {
      assert s == parts[0] + ([sep] + JoinWith(parts[1..], sep));
    }
    var p := parts[0];
    assert s[..|p|] == p;
    if |p| == 1 {
      assert p == [p[0]];
      assert s[0] == p[0];
    } else {
      assert s[1] == p[1];
    }
  }

  /** When no component carries a backslash, `get_relative_path` is plain
      `os.path.relpath`. */
  lemma RelativeLinkWithoutBackslash(target: Path, start: Path)
    requires AllPlain(target) && AllPlain(start)
    requires forall i :: 0 <= i < |target| ==> '\\' !in target[i]
    ensures RelativeLink(target, start) == RelPath(target, start)
  {
    var rel := RelComponents(target, start);
    NormalizeFromAllPlain(target);
    NormalizeFromAllPlain(start);
    var i := CommonPrefixLength(target, start);
    assert rel == Ups(|start| - i) + target[i..];
    assert forall k :: 0 <= k < |rel| ==> '\\' !in rel[k] by {
      forall k | 0 <= k < |rel| ensures '\\' !in rel[k] {
        if k >= |start| - i {
          assert rel[k] == target[i + k - (|start| - i)];
        }
      }
    }
    if rel != [] {
      JoinWithFree(rel, '/', '\\');
    }
    ReplaceAbsent(RelPath(target, start), '\\', '/');
  }

  lemma {:induction false} JoinWithFree(parts: seq<string>, sep: char, c: char)
    requires c != sep
    requires forall i :: 0 <= i < |parts| ==> c !in parts[i]
    ensures c !in JoinWith(parts, sep)
    decreases |parts|
  {
    if |parts| > 1 {
      JoinWithFree(parts[1..], sep, c);
    }
  }

  lemma ReplaceAbsent(s: string, from: char, to: char)
    requires from !in s
    ensures ReplaceChar(s, from, to) == s
  {
  }
}
