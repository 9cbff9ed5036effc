/**
 * How `LinkValidator.fix_local_link` splits a link target at '#': the
 * path part before the first '#' and the anchor it re-attaches.
 */
module Fragment {
  import opened Text

  /** `link.split('#')[0]`. */
  function BeforeHash(link: string): string
  {
    Split(link, '#')[0]
  }

  /** `'#' + link.split('#')[1]` when the link has a '#', "" otherwise. */
  function Anchor(link: string): string
  {
    if '#' in link then "#" + Split(link, '#')[1] else ""
  }

  /** The path part: `link.split('#')[0].strip()`. */
  function PathPart(link: string): string
  {
    Strip(BeforeHash(link))
  }

  // ---------------------------------------------------------------------
  // Lemmas

  /** Without a '#', the path part is the whole link and there is no
      anchor. */
  lemma HashNone(link: string)
    requires IndexOf(link, '#') == |link|
    ensures BeforeHash(link) == link && Anchor(link) == ""
  {
  }

  /** With its first '#' at k, the link splits into the text before k and
      an anchor made of '#' and the text up to the next '#'. */
  lemma HashSome(link: string, k: nat)
    requires k == IndexOf(link, '#') && k < |link|
    ensures BeforeHash(link) == link[..k]
    ensures Anchor(link) == "#" + link[k + 1..][..IndexOf(link[k + 1..], '#')]
  {
    hide IndexOf;
    SplitAt(link, '#');
    assert link[k] == '#';
  }

  lemma FragmentSlice(link: string, k: nat)
    requires k < |link| && link[k] == '#'
    ensures link[k..IndexFrom(link, k + 1, '#')] == "#" + link[k + 1..][..IndexOf(link[k + 1..], '#')]
  {
    hide IndexOf, IndexFrom;
    IndexFromOf(link, k + 1, '#');
    SliceHead(link, k, IndexFrom(link, k + 1, '#'));
  }

  /** The path part ends at the first '#'; the anchor runs from that '#'
      up to the second '#' or the end: whatever follows a second '#' is
      dropped. */
  lemma AnchorIsFirstFragment(link: string)
    ensures var k := IndexOf(link, '#');
      && BeforeHash(link) == link[..k]
      && Anchor(link) == if k < |link| then link[k..IndexFrom(link, k + 1, '#')] else ""
  {
    hide IndexOf, IndexFrom, BeforeHash, Anchor, Split;
    var k := IndexOf(link, '#');
    if k < |link| {
      HashSome(link, k);
      FragmentSlice(link, k);
    } else {
      HashNone(link);
    }
  }
}
