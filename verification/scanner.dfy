/**
 * Hand-written scanners for the three regular expressions of
 * `LinkValidator.link_patterns`, as `re.sub` with `re.MULTILINE` applies
 * them at one position of the text:
 *   Link       `\[([^\]]+)\]\(([^\)]+)\)`
 *   Image      `!\[([^\]]*)\]\(([^\)]+)\)`
 *   Reference  `^\s*\[([^\]]+)\]:\s*(.+)$`
 * Each scanner returns the match's span, its first group (text, alt or
 * label) and its second group (the target).
 */
module Scanner {
  import opened Wrappers
  import opened Text

  datatype Kind = Link | Image | Reference

  /** A match of one pattern: `s[start..end]` is `match.group(0)`, `text`
      is group 1 and `target` group 2. */
  datatype Match = Match(start: nat, end: nat, text: string, target: string)

  predicate NoneIs(s: string, from: nat, until: nat, c: char)
    requires from <= until <= |s|
  {
    forall x :: from <= x < until ==> s[x] != c
  }

  /** `^` in multiline mode. */
  predicate LineStart(s: string, i: nat)
    requires i <= |s|
  {
    i == 0 || s[i - 1] == '\n'
  }

  // ---------------------------------------------------------------------
  // What each pattern accepts, stated as the regular expression reads

  /** `[` text `](` target `)` with '[' at i, ']' at j and ')' at k. */
  predicate LinkShape(s: string, i: nat, j: nat, k: nat)
  {
    && i + 1 < j && j + 2 < k < |s|
    && s[i] == '[' && NoneIs(s, i + 1, j, ']') && s[j] == ']'
    && s[j + 1] == '(' && NoneIs(s, j + 2, k, ')') && s[k] == ')'
  }

  /** `![` alt `](` target `)` with '!' at i, ']' at j and ')' at k; the
      alt text may be empty. */
  predicate ImageShape(s: string, i: nat, j: nat, k: nat)
  {
    && i + 2 <= j && j + 2 < k < |s|
    && s[i] == '!' && s[i + 1] == '[' && NoneIs(s, i + 2, j, ']') && s[j] == ']'
    && s[j + 1] == '(' && NoneIs(s, j + 2, k, ')') && s[k] == ')'
  }

  /** A line start at i, white space up to the '[' at w, a label up to the
      ']' at j, then ':', white space up to t, and a target from t to the
      end of its line e. */
  predicate ReferenceShape(s: string, i: nat, w: nat, j: nat, t: nat, e: nat)
  {
    && i <= w && w + 1 < j && j + 2 <= t < e <= |s|
    && LineStart(s, i) && AllSpace(s, i, w) && s[w] == '['
    && NoneIs(s, w + 1, j, ']') && s[j] == ']' && s[j + 1] == ':'
    && AllSpace(s, j + 2, t) && NoneIs(s, t, e, '\n')
    && (e == |s| || s[e] == '\n')
  }

  // ---------------------------------------------------------------------
  // The scanners

  function MatchLink(s: string, i: nat): Option<Match>
    requires i <= |s|
  {
    if i < |s| && s[i] == '[' then
      var j := IndexFrom(s, i + 1, ']');
      if i + 1 < j < |s| - 1 && s[j + 1] == '(' then
        var k := IndexFrom(s, j + 2, ')');
        if j + 2 < k < |s| then Some(Match(i, k + 1, s[i + 1..j], s[j + 2..k])) else None
      else None
    else None
  }

  function MatchImage(s: string, i: nat): Option<Match>
    requires i <= |s|
  {
    if i + 1 < |s| && s[i] == '!' && s[i + 1] == '[' then
      var j := IndexFrom(s, i + 2, ']');
      if j < |s| - 1 && s[j + 1] == '(' then
        var k := IndexFrom(s, j + 2, ')');
        if j + 2 < k < |s| then Some(Match(i, k + 1, s[i + 2..j], s[j + 2..k])) else None
      else None
    else None
  }

  /** The last position in `[lo, hi)` that is not a line break: where
      `\s*` gives back characters so that `.+` can match one. */
  function LastNonNewline(s: string, lo: nat, hi: nat): (r: Option<nat>)
    requires lo <= hi <= |s|
    ensures r.Some? ==> lo <= r.value < hi && s[r.value] != '\n'
    ensures r.Some? ==> forall x :: r.value < x < hi ==> s[x] == '\n'
    ensures r.None? ==> forall x :: lo <= x < hi ==> s[x] == '\n'
    decreases hi - lo
  {
    if lo == hi then None
    else if s[hi - 1] != '\n' then Some(hi - 1)
    else LastNonNewline(s, lo, hi - 1)
  }

  function MatchReference(s: string, i: nat): Option<Match>
    requires i <= |s|
  {
    if !LineStart(s, i) then None
    else
      var w := SkipSpaces(s, i);
      if !(w < |s| && s[w] == '[') then None
      else
        var j := IndexFrom(s, w + 1, ']');
        if !(w + 1 < j < |s| - 1 && s[j + 1] == ':') then None
        else
          var q := SkipSpaces(s, j + 2);
          var start := if q < |s| then Some(q) else LastNonNewline(s, j + 2, |s|);
          match start
          case None => None
          case Some(t) =>
            var e := IndexFrom(s, t, '\n');
            Some(Match(i, e, s[w + 1..j], s[t..e]))
  }

  /** The match of one pattern at position i, if any. */
  function MatchAt(kind: Kind, s: string, i: nat): (r: Option<Match>)
    requires i <= |s|
    ensures r.Some? ==> r.value.start == i < r.value.end <= |s| && r.value.target != []
  {
    match kind
    case Link => MatchLink(s, i)
    case Image => MatchImage(s, i)
    case Reference => MatchReference(s, i)
  }

  /** The replacement `replace_link` builds around a target. */
  function Rebuild(kind: Kind, text: string, target: string): string
  {
    match kind
    case Image => "![" + (text + ("](" + (target + ")")))
    case Reference => "[" + (text + ("]: " + target))
    case Link => "[" + (text + ("](" + (target + ")")))
  }

  /** The matches `re.sub` visits from position i on: after a match it goes
      on at the match's end, otherwise at the next position. */
  function MatchesFrom(kind: Kind, s: string, i: nat): seq<Match>
    requires i <= |s|
    decreases |s| - i
  {
    if i == |s| then []
    else match MatchAt(kind, s, i)
      case Some(m) => [m] + MatchesFrom(kind, s, m.end)
      case None => MatchesFrom(kind, s, i + 1)
  }

  // ---------------------------------------------------------------------
  // Lemmas: each scanner finds exactly what its pattern accepts

  lemma IndexFromIs(s: string, from: nat, c: char, j: nat)
    requires from <= j < |s| && s[j] == c && NoneIs(s, from, j, c)
    ensures IndexFrom(s, from, c) == j
  {
  }

  lemma LinkMatchSound(s: string, i: nat)
    requires i <= |s| && MatchLink(s, i).Some?
    ensures var m := MatchLink(s, i).value;
      var j := i + 1 + |m.text|;
      && LinkShape(s, i, j, m.end - 1)
      && m.start == i && m.text == s[i + 1..j] && m.target == s[j + 2..m.end - 1]
  {
  }

  lemma LinkMatchComplete(s: string, i: nat, j: nat, k: nat)
    requires LinkShape(s, i, j, k)
    ensures MatchLink(s, i) == Some(Match(i, k + 1, s[i + 1..j], s[j + 2..k]))
  {
    IndexFromIs(s, i + 1, ']', j);
    IndexFromIs(s, j + 2, ')', k);
    assert i + 1 < j < |s| - 1 && s[j + 1] == '(';
    assert j + 2 < k < |s|;
  }

  lemma ImageMatchSound(s: string, i: nat)
    requires i <= |s| && MatchImage(s, i).Some?
    ensures var m := MatchImage(s, i).value;
      var j := i + 2 + |m.text|;
      && ImageShape(s, i, j, m.end - 1)
      && m.start == i && m.text == s[i + 2..j] && m.target == s[j + 2..m.end - 1]
  {
  }

  lemma ImageMatchComplete(s: string, i: nat, j: nat, k: nat)
    requires ImageShape(s, i, j, k)
    ensures MatchImage(s, i) == Some(Match(i, k + 1, s[i + 2..j], s[j + 2..k]))
  {
    IndexFromIs(s, i + 2, ']', j);
    IndexFromIs(s, j + 2, ')', k);
  }

  /** `s[a..c]` is the slice up to b followed by the slice from b. */
  lemma Slices(s: string, a: nat, b: nat, c: nat)
    requires a <= b <= c <= |s|
    ensures s[a..c] == s[a..b] + s[b..c]
  {
  }

  /** A slice cut at b, c, d and e is its five pieces in order. */
  lemma Pieces(s: string, a: nat, b: nat, c: nat, d: nat, e: nat, f: nat)
    requires a <= b <= c <= d <= e <= f <= |s|
    ensures s[a..f] == s[a..b] + (s[b..c] + (s[c..d] + (s[d..e] + s[e..f])))
  {
    Slices(s, a, b, f);
    Slices(s, b, c, f);
    Slices(s, c, d, f);
    Slices(s, d, e, f);
  }

  /** A reference match has the reference shape, with the label and the
      target where the shape puts them. */
  lemma ReferenceMatchSound(s: string, i: nat)
    requires i <= |s| && MatchReference(s, i).Some?
    ensures var m := MatchReference(s, i).value;
      var w := SkipSpaces(s, i);
      var j := w + 1 + |m.text|;
      var t := m.end - |m.target|;
      && ReferenceShape(s, i, w, j, t, m.end)
      && m.start == i && m.text == s[w + 1..j] && m.target == s[t..m.end]
  {
  }

  lemma ReferenceShapeText(s: string, i: nat, w: nat, j: nat, t: nat, e: nat)
    requires ReferenceShape(s, i, w, j, t, e)
    ensures s[i..e] == s[i..w] + ("[" + (s[w + 1..j] + ("]:" + (s[j + 2..t] + s[t..e]))))
  {
    hide NoneIs, AllSpace, LineStart;
    Slices(s, i, w, e);
    Pieces(s, w, w + 1, j, j + 2, t, e);
    assert s[w..w + 1] == "[";
    assert s[j..j + 2] == "]:";
  }

  /** The text a reference match covers is the leading white space, the
      label in brackets, ':', the white space before the target, and the
      target. */
  lemma ReferenceMatchText(s: string, i: nat)
    requires i <= |s| && MatchReference(s, i).Some?
    ensures var m := MatchReference(s, i).value;
      var w := SkipSpaces(s, i);
      var j := w + 1 + |m.text|;
      var t := m.end - |m.target|;
      s[m.start..m.end] == s[i..w] + ("[" + (m.text + ("]:" + (s[j + 2..t] + m.target))))
  {
    hide MatchReference, NoneIs, AllSpace, LineStart, IndexFrom, LastNonNewline;
    var m := MatchReference(s, i).value;
    var w := SkipSpaces(s, i);
    var j := w + 1 + |m.text|;
    var t := m.end - |m.target|;
    ReferenceMatchSound(s, i);
    ReferenceShapeText(s, i, w, j, t, m.end);
  }

  /** Whenever the reference pattern can match at i, the scanner matches,
      with the same label, and `\s*` before the target is greedy: the target
      starts no earlier than in any other way of matching. */
  lemma ReferenceMatchComplete(s: string, i: nat, w: nat, j: nat, t: nat, e: nat)
    requires ReferenceShape(s, i, w, j, t, e)
    ensures MatchReference(s, i).Some?
    ensures MatchReference(s, i).value.text == s[w + 1..j]
    ensures t <= MatchReference(s, i).value.end - |MatchReference(s, i).value.target|
  {
    hide LineStart, IndexFrom, LastNonNewline;
    assert SkipSpaces(s, i) == w by {
      assert !IsSpace('[');
    }
    IndexFromIs(s, w + 1, ']', j);
    var q := SkipSpaces(s, j + 2);
    if q == |s| {
      assert s[t] != '\n';
      var r := LastNonNewline(s, j + 2, |s|);
      assert r.Some?;
    }
  }

  lemma RebuildLink(s: string, i: nat)
    requires i <= |s| && MatchLink(s, i).Some?
    ensures var m := MatchLink(s, i).value;
      Rebuild(Link, m.text, m.target) == s[m.start..m.end]
  {
    hide MatchLink, NoneIs, IndexFrom;
    var m := MatchLink(s, i).value;
    LinkMatchSound(s, i);
    var j := i + 1 + |m.text|;
    var e := m.end;
    Pieces(s, i, i + 1, j, j + 2, e - 1, e);
    assert s[i..i + 1] == "[";
    assert s[j..j + 2] == "](";
    assert s[e - 1..e] == ")";
  }

  lemma RebuildImage(s: string, i: nat)
    requires i <= |s| && MatchImage(s, i).Some?
    ensures var m := MatchImage(s, i).value;
      Rebuild(Image, m.text, m.target) == s[m.start..m.end]
  {
    hide MatchImage, NoneIs, IndexFrom;
    var m := MatchImage(s, i).value;
    ImageMatchSound(s, i);
    var j := i + 2 + |m.text|;
    var e := m.end;
    Pieces(s, i, i + 2, j, j + 2, e - 1, e);
    assert s[i..i + 2] == "![";
    assert s[j..j + 2] == "](";
    assert s[e - 1..e] == ")";
  }

  /** A link or image match rebuilt around its own target is the matched
      text itself. */
  lemma RebuildMatched(kind: Kind, s: string, i: nat)
    requires i <= |s| && kind != Reference && MatchAt(kind, s, i).Some?
    ensures var m := MatchAt(kind, s, i).value;
      Rebuild(kind, m.text, m.target) == s[m.start..m.end]
  {
    if kind == Link {
      RebuildLink(s, i);
    } else {
      RebuildImage(s, i);
    }
  }

  /** A reference definition rebuilt around its own target is its matched
      text exactly when it has no leading white space and exactly one space
      after the ':'. */
  lemma ReferenceRebuildExact(s: string, i: nat)
    requires i <= |s| && MatchReference(s, i).Some?
    ensures var m := MatchReference(s, i).value;
      var w := SkipSpaces(s, i);
      var j := w + 1 + |m.text|;
      var exact := Rebuild(Reference, m.text, m.target) == s[m.start..m.end];
      exact <==> w == i && s[j + 2..m.end - |m.target|] == " "
  {
    hide MatchReference, NoneIs, LineStart, IndexFrom, LastNonNewline;
    var m := MatchReference(s, i).value;
    var w := SkipSpaces(s, i);
    var j := w + 1 + |m.text|;
    var t := m.end - |m.target|;
    ReferenceMatchSound(s, i);
    ReferenceMatchText(s, i);
    var lead := s[i..w];
    var gap := s[j + 2..t];
    var rebuilt := Rebuild(Reference, m.text, m.target);
    var matched := s[m.start..m.end];
    assert |matched| == |lead| + |m.text| + 3 + |gap| + |m.target|;
    assert |rebuilt| == |m.text| + 4 + |m.target|;
    assert rebuilt[0] == '[' && rebuilt[|m.text| + 3] == ' ';
    assert w > i ==> matched[0] == s[i] && IsSpace(s[i]);
    assert w == i && |gap| > 0 ==> matched[|m.text| + 3] == gap[0];
    if w == i && gap == " " {
      assert lead == [];
      assert "]:" + (" " + m.target) == "]: " + m.target;
    }
  }

  /** The image pattern's match with a non-empty alt text contains a match
      of the link pattern one position later, with the same text and
      target: `re.sub` with the link pattern rewrites it as well. */
  lemma ImageAlsoMatchesLink(s: string, i: nat)
    requires i <= |s| && MatchImage(s, i).Some? && MatchImage(s, i).value.text != ""
    ensures var m := MatchImage(s, i).value;
      MatchLink(s, i + 1) == Some(Match(i + 1, m.end, m.text, m.target))
  {
    ImageMatchSound(s, i);
    var m := MatchImage(s, i).value;
    LinkMatchComplete(s, i + 1, i + 2 + |m.text|, m.end - 1);
  }

  /** The matches lie in `[lo, hi)`, in order, without overlapping. */
  predicate Spans(ms: seq<Match>, lo: nat, hi: nat)
  {
    && (forall a :: 0 <= a < |ms| ==> lo <= ms[a].start < ms[a].end <= hi)
    && (forall a, b :: 0 <= a < b < |ms| ==> ms[a].end <= ms[b].start)
  }

  /** The matches `re.sub` visits lie inside the text, in order, without
      overlapping. */
  lemma {:induction false} MatchesOrdered(kind: Kind, s: string, i: nat)
    requires i <= |s|
    ensures Spans(MatchesFrom(kind, s, i), i, |s|)
    decreases |s| - i
  {
    hide MatchAt;
    if i < |s| {
      match MatchAt(kind, s, i)
      case Some(m) =>
        MatchesOrdered(kind, s, m.end);
        var rest := MatchesFrom(kind, s, m.end);
        assert MatchesFrom(kind, s, i) == [m] + rest;
        assert forall a :: 0 <= a < |rest| ==> m.end <= rest[a].start;
      case None =>
        MatchesOrdered(kind, s, i + 1);
    }
  }

  /** No match of `ms` straddles position p. */
  predicate Uncovered(ms: seq<Match>, p: nat)
  {
    forall a :: 0 <= a < |ms| ==> !(ms[a].start < p < ms[a].end)
  }

  lemma UncoveredTail(ms: seq<Match>, p: nat)
    requires ms != [] && Uncovered(ms, p)
    ensures !(ms[0].start < p < ms[0].end) && Uncovered(ms[1..], p)
  {
    assert forall a :: 0 <= a < |ms| - 1 ==> ms[1..][a] == ms[a + 1];
  }

  /** `re.sub` visits every match that starts at a position none of its
      earlier matches covers. */
  lemma {:induction false} UncoveredMatchVisited(kind: Kind, s: string, j: nat, p: nat)
    requires j <= p < |s| && MatchAt(kind, s, p).Some?
    requires Uncovered(MatchesFrom(kind, s, j), p)
    ensures MatchAt(kind, s, p).value in MatchesFrom(kind, s, j)
    decreases p - j
  {
    hide MatchAt, MatchesFrom, Uncovered;
    MatchesStep(kind, s, j);
    if j < p {
      if MatchAt(kind, s, j).Some? {
        var m := MatchAt(kind, s, j).value;
        var rest := MatchesFrom(kind, s, m.end);
        UncoveredTail(MatchesFrom(kind, s, j), p);
        assert MatchesFrom(kind, s, j)[1..] == rest;
        UncoveredMatchVisited(kind, s, m.end, p);
      } else {
        UncoveredMatchVisited(kind, s, j + 1, p);
      }
    }
  }

  /** One step of the scan `re.sub` performs. */
  lemma MatchesStep(kind: Kind, s: string, i: nat)
    requires i < |s|
    ensures MatchAt(kind, s, i).Some? ==>
      MatchesFrom(kind, s, i) == [MatchAt(kind, s, i).value] + MatchesFrom(kind, s, MatchAt(kind, s, i).value.end)
    ensures MatchAt(kind, s, i).None? ==> MatchesFrom(kind, s, i) == MatchesFrom(kind, s, i + 1)
  {
  }
}
