/**
 * Character and string primitives of Python's `str` that the link validator
 * relies on: `isspace`, `strip`, `startswith`/`endswith`, `split`, `'/'.join`
 * and `replace` of one character.  Strings are `seq<char>`.
 */
module Text {

  /** Python's `str.isspace` on one character, which is also what the regular
      expression class `\s` matches in a `str` pattern. */
  predicate IsSpace(c: char)
  {
    || ('\t' <= c <= '\r')
    || ('\U{1C}' <= c <= '\U{1F}')
    || c == ' ' || c == '\U{85}' || c == '\U{A0}' || c == '\U{1680}'
    || ('\U{2000}' <= c <= '\U{200A}')
    || c == '\U{2028}' || c == '\U{2029}' || c == '\U{202F}' || c == '\U{205F}' || c == '\U{3000}'
  }

  predicate StartsWith(s: string, prefix: string)
  {
    prefix <= s
  }

  predicate EndsWith(s: string, suffix: string)
  {
    |suffix| <= |s| && s[|s| - |suffix|..] == suffix
  }

  /** Index of the first `c` in `s`, or `|s|` when there is none (`str.find`
      with the "not found" case mapped to the length). */
  function IndexOf(s: string, c: char): (k: nat)
    ensures k <= |s|
    ensures k < |s| ==> s[k] == c
    ensures forall j :: 0 <= j < k ==> s[j] != c
  {
    if s == [] then 0
    else if s[0] == c then 0
    else 1 + IndexOf(s[1..], c)
  }

  /** Index of the first `c` in `s` at or after `from`, or `|s|`. */
  function IndexFrom(s: string, from: nat, c: char): (k: nat)
    requires from <= |s|
    ensures from <= k <= |s|
    ensures k < |s| ==> s[k] == c
    ensures forall j :: from <= j < k ==> s[j] != c
    decreases |s| - from
  {
    if from == |s| || s[from] == c then from else IndexFrom(s, from + 1, c)
  }

  predicate AllSpace(s: string, from: nat, until: nat)
    requires from <= until <= |s|
  {
    forall x :: from <= x < until ==> IsSpace(s[x])
  }

  /** The first index at or after `from` not holding white space, or |s|:
      where a greedy `\s*` starting at `from` stops. */
  function SkipSpaces(s: string, from: nat): (k: nat)
    requires from <= |s|
    ensures from <= k <= |s|
    ensures AllSpace(s, from, k)
    ensures k < |s| ==> !IsSpace(s[k])
    decreases |s| - from
  {
    if from < |s| && IsSpace(s[from]) then SkipSpaces(s, from + 1) else from
  }

  /** The last index down from `hi`, not below `lo`, after which only
      white space follows. */
  function TrimSpaces(s: string, lo: nat, hi: nat): (k: nat)
    requires lo <= hi <= |s|
    ensures lo <= k <= hi
    ensures AllSpace(s, k, hi)
    ensures k > lo ==> !IsSpace(s[k - 1])
    decreases hi
  {
    if hi > lo && IsSpace(s[hi - 1]) then TrimSpaces(s, lo, hi - 1) else hi
  }

  /** `str.strip()` with no argument: the longest slice of `s` that neither
      starts nor ends with white space. */
  function Strip(s: string): (r: string)
  {
    var a := SkipSpaces(s, 0);
    s[a..TrimSpaces(s, a, |s|)]
  }

  lemma StripIsEmptyIffAllSpace(s: string)
    ensures Strip(s) == [] <==> forall i :: 0 <= i < |s| ==> IsSpace(s[i])
  {
  }

  /** `s.split(sep)`: the pieces between occurrences of `sep`, always at
      least one. */
  function Split(s: string, sep: char): (parts: seq<string>)
    ensures |parts| >= 1
    ensures parts[0] == s[..IndexOf(s, sep)]
    decreases |s|
  {
    var k := IndexOf(s, sep);
    if k == |s| then [s] else [s[..k]] + Split(s[k + 1..], sep)
  }

  /** Splitting at the first separator: the piece before it, then the
      split of the rest. */
  lemma SplitAt(s: string, sep: char)
    requires IndexOf(s, sep) < |s|
    ensures var k := IndexOf(s, sep);
      Split(s, sep) == [s[..k]] + Split(s[k + 1..], sep)
  {
  }

  /** A slice is its first character followed by the rest. */
  lemma SliceHead(s: string, a: nat, b: nat)
    requires a < b <= |s|
    ensures s[a..b] == [s[a]] + s[a + 1..][..b - a - 1]
  {
  }

  /** No piece of a split contains the separator. */
  lemma {:induction false} SplitFree(s: string, sep: char)
    ensures forall i :: 0 <= i < |Split(s, sep)| ==> sep !in Split(s, sep)[i]
    decreases |s|
  {
    var k := IndexOf(s, sep);
    if k < |s| {
      SplitFree(s[k + 1..], sep);
      assert Split(s, sep) == [s[..k]] + Split(s[k + 1..], sep);
    }
  }

  /** `sep.join(parts)`. */
  function JoinWith(parts: seq<string>, sep: char): string
  {
    if parts == [] then ""
    else if |parts| == 1 then parts[0]
    else parts[0] + [sep] + JoinWith(parts[1..], sep)
  }

  /** Splitting and joining again gives back the original string. */
  lemma {:induction false} JoinSplit(s: string, sep: char)
    ensures JoinWith(Split(s, sep), sep) == s
    decreases |s|
  {
    hide IndexOf;
    var k := IndexOf(s, sep);
    if k < |s| {
      SplitAt(s, sep);
      var rest := Split(s[k + 1..], sep);
      JoinSplit(s[k + 1..], sep);
      JoinCons(s[..k], rest, sep);
      assert s == s[..k] + [sep] + s[k + 1..];
    }
  }

  /** Joining a piece in front of a non-empty list puts the separator
      between them. */
  lemma JoinCons(a: string, rest: seq<string>, sep: char)
    requires rest != []
    ensures JoinWith([a] + rest, sep) == a + [sep] + JoinWith(rest, sep)
  {
    assert ([a] + rest)[1..] == rest;
  }

  /** Joining pieces free of the separator and splitting again gives back
      the pieces. */
  lemma {:induction false} SplitJoin(parts: seq<string>, sep: char)
    requires |parts| >= 1
    requires forall i :: 0 <= i < |parts| ==> sep !in parts[i]
    ensures Split(JoinWith(parts, sep), sep) == parts
    decreases |parts|
  {
    if |parts| > 1 {
      var s := JoinWith(parts, sep);
      var rest := JoinWith(parts[1..], sep);
      assert s == parts[0] + ([sep] + rest);
      assert s[..|parts[0]|] == parts[0];
      assert s[|parts[0]|] == sep;
      assert IndexOf(s, sep) == |parts[0]| by {
        IndexOfAfterFree(parts[0], [sep] + rest, sep);
      }
      assert s[|parts[0]| + 1..] == rest;
      SplitJoin(parts[1..], sep);
    }
  }

  lemma {:induction false} IndexOfAfterFree(a: string, b: string, c: char)
    requires c !in a
    requires b != [] && b[0] == c
    ensures IndexOf(a + b, c) == |a|
    decreases |a|
  {
    if a != [] {
      assert (a + b)[1..] == a[1..] + b;
      IndexOfAfterFree(a[1..], b, c);
    }
  }

  /** `s.replace(old, new)` for single characters. */
  function ReplaceChar(s: string, from: char, to: char): (r: string)
    ensures |r| == |s|
    ensures forall i :: 0 <= i < |s| ==> r[i] == if s[i] == from then to else s[i]
  {
    if s == [] then []
    else [if s[0] == from then to else s[0]] + ReplaceChar(s[1..], from, to)
  }

  /** `IndexFrom` is `IndexOf` on the rest of the string. */
  lemma {:induction false} IndexFromOf(s: string, from: nat, c: char)
    requires from <= |s|
    ensures IndexFrom(s, from, c) == from + IndexOf(s[from..], c)
    decreases |s| - from
  {
    if from < |s| && s[from] != c {
      IndexFromOf(s, from + 1, c);
      assert s[from..][1..] == s[from + 1..];
    }
  }
}
