/**
  Pages as the resizing loop sees them. A page is its media box (the `MediaBox`
  entry of a page object, ISO 32000-1:2008 section 7.7.3.3, the rectangle
  `[llx lly urx ury]` in points) and everything else it holds, which the loop
  never touches and which is kept as an opaque value of type `C`.
*/
module Pages {

  datatype Rect = Rect(llx: real, lly: real, urx: real, ury: real)

  datatype Page<C> = Page(mediaBox: Rect, content: C)

  /** The fixed upper-right corner written to every page: 595 x 842 points. */
  const A4Width: real := 595.0
  const A4Height: real := 842.0

  /** The rectangle every page ends up with. */
  const A4Box: Rect := Rect(0.0, 0.0, A4Width, A4Height)

  /** `rect.lower_left = (x, y)`: sets the first two entries. */
  function SetLowerLeft(r: Rect, x: real, y: real): (s: Rect)
    ensures s.llx == x && s.lly == y && s.urx == r.urx && s.ury == r.ury
  {
    r.(llx := x, lly := y)
  }

  /** `rect.upper_right = (x, y)`: sets the last two entries. */
  function SetUpperRight(r: Rect, x: real, y: real): (s: Rect)
    ensures s.urx == x && s.ury == y && s.llx == r.llx && s.lly == r.lly
  {
    r.(urx := x, ury := y)
  }

  /** One iteration's rewrite of a page: lower-left to (0, 0), then upper-right
      to (595, 842). */
  function ResetBox<C>(p: Page<C>): (q: Page<C>)
    ensures q.mediaBox == A4Box
    ensures q.content == p.content
  {
    var box := SetLowerLeft(p.mediaBox, 0.0, 0.0);
    p.(mediaBox := SetUpperRight(box, A4Width, A4Height))
  }

  /** The document after the loop: every page reset, in the original order. */
  function ResetAll<C>(pages: seq<Page<C>>): (r: seq<Page<C>>)
    ensures |r| == |pages|
    ensures forall i :: 0 <= i < |r| ==> r[i].mediaBox == A4Box && r[i].content == pages[i].content
    decreases |pages|
  {
    if |pages| == 0 then [] else [ResetBox(pages[0])] + ResetAll(pages[1..])
  }

  /** Every page is `A4Box`-sized, whatever its box was. */
  predicate AllA4<C>(pages: seq<Page<C>>) {
    forall i :: 0 <= i < |pages| ==> pages[i].mediaBox == A4Box
  }

  /** Same number of pages, same contents at the same positions. */
  ghost predicate SameContents<C>(a: seq<Page<C>>, b: seq<Page<C>>) {
    |a| == |b| && forall i :: 0 <= i < |a| ==> a[i].content == b[i].content
  }

  /** Resetting is the unique rewrite that makes every box `A4Box` and keeps the
      contents: the two properties determine the result entirely. */
  lemma ResetAllCharacterized<C>(pages: seq<Page<C>>, out: seq<Page<C>>)
    ensures out == ResetAll(pages) <==> AllA4(out) && SameContents(pages, out)
  {
    if AllA4(out) && SameContents(pages, out) {
      var r := ResetAll(pages);
      forall i | 0 <= i < |out|
        ensures out[i] == r[i]
      {
        assert out[i] == Page(out[i].mediaBox, out[i].content);
      }
    }
  }

  /** Resetting the pages one by one gives `ResetAll`. */
  lemma ResetEachIsResetAll<C>(pages: seq<Page<C>>, out: seq<Page<C>>)
    requires |out| == |pages|
    requires forall k :: 0 <= k < |out| ==> out[k] == ResetBox(pages[k])
    ensures out == ResetAll(pages)
  {
    ResetAllCharacterized(pages, out);
  }

  /** Rewriting an already rewritten document changes nothing. */
  lemma ResetAllIdempotent<C>(pages: seq<Page<C>>)
    ensures ResetAll(ResetAll(pages)) == ResetAll(pages)
  {
    ResetAllCharacterized(ResetAll(pages), ResetAll(pages));
  }

  /** A document whose pages already have `A4Box` is left as it is. */
  lemma ResetAllFixesA4<C>(pages: seq<Page<C>>)
    requires AllA4(pages)
    ensures ResetAll(pages) == pages
  {
    ResetAllCharacterized(pages, pages);
  }

  /** The rewrite of a concatenation is the concatenation of the rewrites: pages
      are handled one at a time, independently of each other. */
  lemma ResetAllAppend<C>(a: seq<Page<C>>, b: seq<Page<C>>)
    ensures ResetAll(a + b) == ResetAll(a) + ResetAll(b)
  {
    var r := ResetAll(a) + ResetAll(b);
    forall i | 0 <= i < |r|
      ensures r[i].mediaBox == A4Box && r[i].content == (a + b)[i].content
    {
      if i >= |a| {
        assert r[i] == ResetAll(b)[i - |a|];
      }
    }
    ResetAllCharacterized(a + b, r);
  }

  /** `PdfWriter`'s page list: `add_page` appends. */
  class Writer<C> {
    var pages: seq<Page<C>>

    constructor ()
      ensures pages == []
    {
      pages := [];
    }

    method AddPage(p: Page<C>)
      modifies this
      ensures pages == old(pages) + [p]
    {
      pages := pages + [p];
    }
  }
}
