/**
 * What `LinkValidator.process_links` computes: three `re.sub` passes (links,
 * images, reference definitions), each over the previous pass's output,
 * where every match is either kept verbatim (a URL target) or rebuilt
 * around the target `fix_local_link` returns; and the counters the
 * `replace_link` closure and `fix_local_link` bump on the way.
 */
module Process {
  import opened Wrappers
  import opened Text
  import opened Paths
  import opened FileTree
  import opened Urls
  import opened Scanner
  import opened Resolver

  /** The four counters of a `LinkValidator`: `total_links`, `url_links`,
      `fixes_count` and `broken_links`. */
  datatype Tally = Tally(total: nat, urls: nat, fixes: nat, broken: nat)
  {
    function Plus(t: Tally): Tally
    {
      Tally(total + t.total, urls + t.urls, fixes + t.fixes, broken + t.broken)
    }
  }

  const Zero := Tally(0, 0, 0, 0)

  /** The order of `link_patterns`. */
  const Kinds: seq<Kind> := [Link, Image, Reference]

  /** What the passes depend on besides the text: the decision
      `fix_local_link` takes for a target, which for a given document is
      `t => FixLink(fs, base, t, unquote)`. */
  type Fixer = string -> Fix

  /** The decisions for a document in directory `base` of the tree `fs`. */
  function FixerFor(fs: Node, base: Path, unquote: string -> string): Fixer
  {
    t => FixLink(fs, base, t, unquote)
  }

  /** `replace_link` on one match `m` of `s`: the replacement text and what
      it adds to the counters. */
  function Visit(env: Fixer, kind: Kind, s: string, m: Match): (string, Tally)
    requires m.start <= m.end <= |s|
  {
    if IsUrl(m.target) then (s[m.start..m.end], Tally(1, 1, 0, 0))
    else
      var f := env(m.target);
      var fixed := Emitted(f, m.target);
      (Rebuild(kind, m.text, fixed),
       Tally(1, 0, if fixed != m.target then 1 else 0, if f.Broken? then 1 else 0))
  }

  /** `re.sub` with one pattern from position i of `s` on: unmatched
      characters are copied, each match is replaced by `Visit`. */
  function SubFrom(env: Fixer, kind: Kind, s: string, i: nat): (r: (string, Tally))
    requires i <= |s|
    ensures r.1.total == |MatchesFrom(kind, s, i)|
    decreases |s| - i
  {
    if i == |s| then ("", Zero)
    else match MatchAt(kind, s, i)
      case Some(m) =>
        var v := Visit(env, kind, s, m);
        var r := SubFrom(env, kind, s, m.end);
        (v.0 + r.0, v.1.Plus(r.1))
      case None =>
        var r := SubFrom(env, kind, s, i + 1);
        ([s[i]] + r.0, r.1)
  }

  function Sub(env: Fixer, kind: Kind, s: string): (string, Tally)
  {
    SubFrom(env, kind, s, 0)
  }

  /** The text and the counters after the first n passes. */
  function Passes(env: Fixer, content: string, n: nat): (string, Tally)
    requires n <= |Kinds|
  {
    if n == 0 then (content, Zero)
    else
      var p := Passes(env, content, n - 1);
      var r := Sub(env, Kinds[n - 1], p.0);
      (r.0, p.1.Plus(r.1))
  }

  /** `process_links(content)` and what it adds to the counters. */
  function ProcessLinks(env: Fixer, content: string): (string, Tally)
  {
    Passes(env, content, |Kinds|)
  }

  // ---------------------------------------------------------------------
  // Lemmas

  /** One visit counts its match once, and at most one of: a URL, a fix, a
      broken link. */
  lemma VisitCounts(env: Fixer, kind: Kind, s: string, m: Match)
    requires m.start <= m.end <= |s|
    ensures var t := Visit(env, kind, s, m).1;
      t.total == 1 && t.urls + t.fixes + t.broken <= 1
  {
  }

  /** What one visit adds to the counters: one link, and then a URL, or
      a fix when the emitted target differs, and a broken link. */
  lemma VisitTally(env: Fixer, kind: Kind, s: string, m: Match)
    requires m.start <= m.end <= |s|
    ensures Visit(env, kind, s, m).1 ==
      if IsUrl(m.target) then Tally(1, 1, 0, 0)
      else
        var f := env(m.target);
        Tally(1, 0, if Emitted(f, m.target) != m.target then 1 else 0, if f.Broken? then 1 else 0)
  {
  }

  /** A URL target is passed through byte for byte and reaches neither
      `fix_local_link` nor the fix and broken counters. */
  lemma UrlKeptVerbatim(env: Fixer, kind: Kind, s: string, m: Match)
    requires m.start <= m.end <= |s| && IsUrl(m.target)
    ensures Visit(env, kind, s, m) == (s[m.start..m.end], Tally(1, 1, 0, 0))
  {
  }

  /** Every rebuilt match keeps its text and its shape: it is the match's
      own rebuild around the target `fix_local_link` returned. */
  lemma VisitRebuilds(env: Fixer, kind: Kind, s: string, m: Match)
    requires m.start <= m.end <= |s| && !IsUrl(m.target)
    ensures Visit(env, kind, s, m).0
      == Rebuild(kind, m.text, Emitted(env(m.target), m.target))
  {
  }

  /** One step of `re.sub` at a match. */
  lemma SubStep(env: Fixer, kind: Kind, s: string, i: nat)
    requires i < |s| && MatchAt(kind, s, i).Some?
    ensures var m := MatchAt(kind, s, i).value;
      var v := Visit(env, kind, s, m);
      var r := SubFrom(env, kind, s, m.end);
      SubFrom(env, kind, s, i) == (v.0 + r.0, v.1.Plus(r.1))
  {
  }

  /** One step of `re.sub` where nothing matches. */
  lemma SubSkip(env: Fixer, kind: Kind, s: string, i: nat)
    requires i < |s| && MatchAt(kind, s, i).None?
    ensures SubFrom(env, kind, s, i) == ([s[i]] + SubFrom(env, kind, s, i + 1).0, SubFrom(env, kind, s, i + 1).1)
  {
  }

  /** `re.sub` has nothing left to do at the end of the text. */
  lemma SubAtEnd(env: Fixer, kind: Kind, s: string)
    ensures SubFrom(env, kind, s, |s|) == ("", Zero)
  {
  }

  /** Each link is counted at most once as a URL, a fix or a broken link. */
  lemma {:induction false} SubCounts(env: Fixer, kind: Kind, s: string, i: nat)
    requires i <= |s|
    ensures var t := SubFrom(env, kind, s, i).1;
      t.urls + t.fixes + t.broken <= t.total
    decreases |s| - i
  {
    hide SubFrom, Visit, MatchAt;
    if i == |s| {
      SubAtEnd(env, kind, s);
    } else if MatchAt(kind, s, i).Some? {
      var m := MatchAt(kind, s, i).value;
      SubStep(env, kind, s, i);
      VisitCounts(env, kind, s, m);
      SubCounts(env, kind, s, m.end);
    } else {
      SubSkip(env, kind, s, i);
      SubCounts(env, kind, s, i + 1);
    }
  }

  /** A link or image pass that fixes nothing leaves the text as it was:
      every match is replaced by its own text. */
  lemma {:induction false} SubWithoutFixesUnchanged(env: Fixer, kind: Kind, s: string, i: nat)
    requires i <= |s| && kind != Reference
    ensures SubFrom(env, kind, s, i).1.fixes == 0 ==> SubFrom(env, kind, s, i).0 == s[i..]
    decreases |s| - i
  {
    hide SubFrom, Visit, MatchAt;
    if i == |s| {
      SubAtEnd(env, kind, s);
    } else if MatchAt(kind, s, i).Some? {
      var m := MatchAt(kind, s, i).value;
      SubStep(env, kind, s, i);
      SubWithoutFixesUnchanged(env, kind, s, m.end);
      if SubFrom(env, kind, s, i).1.fixes == 0 {
        VisitWithoutFix(env, kind, s, i);
        Slices(s, i, m.end, |s|);
      }
    } else {
      SubSkip(env, kind, s, i);
      SubWithoutFixesUnchanged(env, kind, s, i + 1);
      assert s[i..] == [s[i]] + s[i + 1..];
    }
  }

  /** A link or image match whose visit fixes nothing is replaced by its
      own text. */
  lemma VisitWithoutFix(env: Fixer, kind: Kind, s: string, i: nat)
    requires i <= |s| && kind != Reference && MatchAt(kind, s, i).Some?
    requires Visit(env, kind, s, MatchAt(kind, s, i).value).1.fixes == 0
    ensures var m := MatchAt(kind, s, i).value;
      Visit(env, kind, s, m).0 == s[m.start..m.end]
  {
    var m := MatchAt(kind, s, i).value;
    if !IsUrl(m.target) {
      assert Emitted(env(m.target), m.target) == m.target;
      RebuildMatched(kind, s, i);
    }
  }

  /** The counters after all three passes are the sums over the passes. */
  lemma {:induction false} PassesCount(env: Fixer, content: string, n: nat)
    requires n <= |Kinds|
    ensures var t := Passes(env, content, n).1;
      t.urls + t.fixes + t.broken <= t.total
    decreases n
  {
    hide SubFrom;
    if n > 0 {
      PassesCount(env, content, n - 1);
      SubCounts(env, Kinds[n - 1], Passes(env, content, n - 1).0, 0);
    }
  }

  /** An image with a non-empty alt text holds a link one character in:
      unless an earlier match of the link pass covers that position, the
      link pass visits it -- and counts it -- with the image's alt text and
      target, before the image pass runs over the link pass's output. */
  lemma ImageVisitedByLinkPass(s: string, i: nat)
    requires i <= |s| && MatchImage(s, i).Some? && MatchImage(s, i).value.text != ""
    requires Uncovered(MatchesFrom(Link, s, 0), i + 1)
    ensures var m := MatchImage(s, i).value;
      Match(i + 1, m.end, m.text, m.target) in MatchesFrom(Link, s, 0)
  {
    hide MatchImage, MatchLink, MatchesFrom, Uncovered;
    ImageAlsoMatchesLink(s, i);
    assert MatchAt(Image, s, i) == MatchImage(s, i);
    assert MatchAt(Link, s, i + 1) == MatchLink(s, i + 1);
    UncoveredMatchVisited(Link, s, 0, i + 1);
  }

  /** The counters a pass adds are the visits' tallies summed over exactly
      the matches `re.sub` finds. */
  function Counted(env: Fixer, kind: Kind, s: string, ms: seq<Match>): Tally
    requires forall a :: 0 <= a < |ms| ==> ms[a].start <= ms[a].end <= |s|
  {
    if ms == [] then Zero else Visit(env, kind, s, ms[0]).1.Plus(Counted(env, kind, s, ms[1..]))
  }

  lemma {:induction false} SubTallyIsSum(env: Fixer, kind: Kind, s: string, i: nat)
    requires i <= |s|
    ensures Spans(MatchesFrom(kind, s, i), i, |s|)
    ensures SubFrom(env, kind, s, i).1 == Counted(env, kind, s, MatchesFrom(kind, s, i))
    decreases |s| - i
  {
    hide SubFrom, Visit, MatchAt;
    MatchesOrdered(kind, s, i);
    if i == |s| {
      SubAtEnd(env, kind, s);
    } else if MatchAt(kind, s, i).Some? {
      var m := MatchAt(kind, s, i).value;
      SubStep(env, kind, s, i);
      SubTallyIsSum(env, kind, s, m.end);
      var rest := MatchesFrom(kind, s, m.end);
      assert MatchesFrom(kind, s, i) == [m] + rest;
      assert ([m] + rest)[1..] == rest;
    } else {
      SubSkip(env, kind, s, i);
      SubTallyIsSum(env, kind, s, i + 1);
    }
  }

  /** Every match of `ms` has a URL target. */
  predicate AllUrlTargets(ms: seq<Match>)
  {
    forall a :: 0 <= a < |ms| ==> IsUrl(ms[a].target)
  }

  /** A pass in which every match has a URL target leaves the text as it
      was and counts each match as a link and a URL, nothing else. */
  lemma {:induction false} SubUrlsOnly(env: Fixer, kind: Kind, s: string, i: nat)
    requires i <= |s| && AllUrlTargets(MatchesFrom(kind, s, i))
    ensures var n := |MatchesFrom(kind, s, i)|;
      SubFrom(env, kind, s, i) == (s[i..], Tally(n, n, 0, 0))
    decreases |s| - i
  {
    hide SubFrom, Visit, MatchAt, MatchesFrom, IsUrl;
    if i == |s| {
      SubAtEnd(env, kind, s);
    } else {
      MatchesStep(kind, s, i);
      if MatchAt(kind, s, i).Some? {
        var m := MatchAt(kind, s, i).value;
        var rest := MatchesFrom(kind, s, m.end);
        assert MatchesFrom(kind, s, i)[0] == m;
        assert MatchesFrom(kind, s, i)[1..] == rest;
        SubStep(env, kind, s, i);
        UrlKeptVerbatim(env, kind, s, m);
        SubUrlsOnly(env, kind, s, m.end);
        var n := |rest|;
        var v := Visit(env, kind, s, m);
        var r := SubFrom(env, kind, s, m.end);
        assert v == (s[i..m.end], Tally(1, 1, 0, 0));
        assert r == (s[m.end..], Tally(n, n, 0, 0));
        assert SubFrom(env, kind, s, i) == (v.0 + r.0, v.1.Plus(r.1));
        Slices(s, i, m.end, |s|);
        assert s[i..m.end] + s[m.end..] == s[i..];
      } else {
        SubSkip(env, kind, s, i);
        SubUrlsOnly(env, kind, s, i + 1);
        assert s[i..] == [s[i]] + s[i + 1..];
      }
    }
  }
}
