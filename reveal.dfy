/**
 * `_scroll_down` and `_get_image_url`: how many DOWN keys the search page
 * receives before the thumbnails are read, and which image addresses the
 * thumbnails reveal. The browser is an object whose only state of interest
 * here is the number of key presses it has been sent; what the page shows
 * is an input.
 */
module Reveal {
  import opened Wrappers
  import Text

  const MinScrollNumber: int := 0
  const MaxScrollNumber: int := 160
  const ImagesPerScroll: int := 25
  const ScrollSimilarity: int := 2
  const ImagesPerHalfPage: int := 350

  /** Python's `int(a / b)` for b > 0: the quotient truncated toward zero. */
  function TruncDiv(a: int, b: int): (r: int)
    requires b > 0
    ensures a >= 0 ==> r == a / b
    ensures a < 0 ==> r <= 0 && r * b >= a && (r - 1) * b < a
  {
    if a >= 0 then a / b else -((-a) / b)
  }

  /**
   * The number of DOWN keys one scroll pass sends for a wanted number of
   * images: none for 26 images or fewer, half of the images beyond the
   * first 25 (rounded down) in between, and never more than 160.
   */
  function ScrollCount(number: int): (r: nat)
    ensures MinScrollNumber <= r <= MaxScrollNumber
    ensures number <= 26 ==> r == 0
    ensures 27 <= number <= 344 ==> r == (number - 25) / 2
    ensures number >= 345 ==> r == 160
  {
    var wanted := TruncDiv(number - ImagesPerScroll, ScrollSimilarity);
    var capped := if MaxScrollNumber < wanted then MaxScrollNumber else wanted;
    if MinScrollNumber < capped then capped else MinScrollNumber
  }

  /** Asking for more images never scrolls less. */
  lemma ScrollCountMonotone(a: int, b: int)
    requires a <= b
    ensures ScrollCount(a) <= ScrollCount(b)
  {
    if 27 <= a && b <= 344 {
      assert (a - 25) / 2 <= (b - 25) / 2;
    }
  }

  /**
   * The DOWN keys `_get_image_url` sends in all: one scroll pass, and a
   * second one only when more than 350 images are wanted and the
   * "show more results" button was found and clicked.
   */
  function RevealPresses(maxLimit: int, moreClicked: bool): (r: nat)
    ensures r <= 2 * MaxScrollNumber
    ensures maxLimit <= ImagesPerHalfPage || !moreClicked ==> r == ScrollCount(maxLimit)
    ensures maxLimit > ImagesPerHalfPage ==> r == (if moreClicked then 320 else 160)
  {
    ScrollCount(maxLimit) + if maxLimit > ImagesPerHalfPage && moreClicked then ScrollCount(maxLimit) else 0
  }

  /**
   * What the search page offers once scrolled. moreButton says whether the
   * "show more results" element could be found and clicked. Each thumbnail
   * is None when clicking it raised, and otherwise lists the large-preview
   * images the page then holds, each with its src attribute if it has one.
   */
  datatype SearchPage = SearchPage(moreButton: bool, thumbnails: seq<Option<seq<Option<string>>>>)

  /** An address `_get_image_url` keeps: present and not inline image data. */
  predicate Collectable(src: Option<string>)
  {
    src.Some? && !Text.Contains(src.value, "data:image")
  }

  /** The addresses kept from the first m preview images of one click. */
  function PanelUrls(images: seq<Option<string>>, m: nat): (r: set<string>)
    requires m <= |images|
  {
    if m == 0 then {}
    else PanelUrls(images, m - 1) + if Collectable(images[m - 1]) then {images[m - 1].value} else {}
  }

  /** The addresses kept from the first n thumbnails. */
  function PageUrls(thumbnails: seq<Option<seq<Option<string>>>>, n: nat): (r: set<string>)
    requires n <= |thumbnails|
  {
    if n == 0 then {}
    else
      PageUrls(thumbnails, n - 1)
      + if thumbnails[n - 1].Some? then PanelUrls(thumbnails[n - 1].value, |thumbnails[n - 1].value|) else {}
  }

  /** Image k of thumbnail t's click offers the address u. */
  predicate Offers(thumbnails: seq<Option<seq<Option<string>>>>, t: int, k: int, u: string)
  {
    && 0 <= t < |thumbnails| && thumbnails[t].Some?
    && 0 <= k < |thumbnails[t].value|
    && thumbnails[t].value[k] == Some(u)
  }

  /** An address is kept from one click exactly when one of its images offers it and it is not inline data. */
  lemma {:induction false} PanelUrlsIff(images: seq<Option<string>>, m: nat, u: string)
    requires m <= |images|
    ensures u in PanelUrls(images, m) <==>
      !Text.Contains(u, "data:image") && exists k :: 0 <= k < m && images[k] == Some(u)
  {
    if m > 0 {
      PanelUrlsIff(images, m - 1, u);
    }
  }

  /**
   * An address is collected exactly when some successful thumbnail click
   * offers it and it does not contain "data:image".
   */
  lemma {:induction false} PageUrlsIff(thumbnails: seq<Option<seq<Option<string>>>>, n: nat, u: string)
    requires n <= |thumbnails|
    ensures u in PageUrls(thumbnails, n) <==>
      !Text.Contains(u, "data:image") && exists t, k :: 0 <= t < n && Offers(thumbnails, t, k, u)
  {
    if n > 0 {
      PageUrlsIff(thumbnails, n - 1, u);
      var t := n - 1;
      if thumbnails[t].Some? {
        var images := thumbnails[t].value;
        PanelUrlsIff(images, |images|, u);
        if exists k :: 0 <= k < |images| && images[k] == Some(u) {
          var k :| 0 <= k < |images| && images[k] == Some(u);
          assert Offers(thumbnails, t, k, u);
        }
        if exists k :: Offers(thumbnails, t, k, u) {
          var k :| Offers(thumbnails, t, k, u);
          assert 0 <= k < |images| && images[k] == Some(u);
        }
      }
    }
  }

  /** No collected address contains "data:image". */
  lemma NoInlineData(thumbnails: seq<Option<seq<Option<string>>>>, u: string)
    requires u in PageUrls(thumbnails, |thumbnails|)
    ensures !Text.Contains(u, "data:image")
  {
    PageUrlsIff(thumbnails, |thumbnails|, u);
  }

  /**
   * The loop over the thumbnails of `_get_image_url`: click each one and
   * add each kept address of the previews it shows to a set.
   */
  method CollectUrls(thumbnails: seq<Option<seq<Option<string>>>>) returns (found: set<string>)
    ensures found == PageUrls(thumbnails, |thumbnails|)
  {
    found := {};
    var t := 0;
    while t < |thumbnails|
      invariant 0 <= t <= |thumbnails|
      invariant found == PageUrls(thumbnails, t)
    {
      ghost var before := found;
      if thumbnails[t].Some? {
        var images := thumbnails[t].value;
        var k := 0;
        while k < |images|
          invariant 0 <= k <= |images|
          invariant found == before + PanelUrls(images, k)
        {
          if images[k].Some? && !Text.Contains(images[k].value, "data:image") {
            found := found + {images[k].value};
          }
          k := k + 1;
        }
      }
      t := t + 1;
    }
  }

  /**
   * `list(image_url_list)`: the set's elements in some order, each once.
   * Python leaves the order unspecified; the model picks any element at
   * each step.
   */
  method SetToList(s: set<string>) returns (l: seq<string>)
    ensures forall u :: u in l <==> u in s
    ensures Distinct(l)
    ensures |l| == |s|
  {
    l := [];
    var rest := s;
    while rest != {}
      invariant rest <= s
      invariant forall u :: u in l <==> u in s && u !in rest
      invariant Distinct(l)
      invariant |l| + |rest| == |s|
      decreases |rest|
    {
      var u :| u in rest;
      l := l + [u];
      rest := rest - {u};
    }
  }

  /** The web browser that `download` drives, seen through the DOWN keys it has sent. */
  class Browser {
    var presses: nat

    constructor()
      ensures presses == 0
    {
      presses := 0;
    }

    /** `_scroll_down(number)`: send ScrollCount(number) DOWN keys to the scroll element. */
    method ScrollDown(number: int)
      modifies this
      ensures presses == old(presses) + ScrollCount(number)
    {
      var count := ScrollCount(number);
      for i := 0 to count
        invariant presses == old(presses) + i
      {
        presses := presses + 1;
      }
    }

    /**
     * `_get_image_url`: scroll, scroll once more after clicking "show more
     * results" when more than 350 images are wanted, then collect the
     * addresses. The list holds each collected address exactly once.
     */
    method GetImageUrls(page: SearchPage, maxLimit: int) returns (urls: seq<string>)
      modifies this
      ensures presses == old(presses) + RevealPresses(maxLimit, page.moreButton)
      ensures forall u :: u in urls <==> u in PageUrls(page.thumbnails, |page.thumbnails|)
      ensures Distinct(urls)
      ensures |urls| == |PageUrls(page.thumbnails, |page.thumbnails|)|
    {
      ScrollDown(maxLimit);
      if maxLimit > ImagesPerHalfPage && page.moreButton {
        ScrollDown(maxLimit);
      }
      var found := CollectUrls(page.thumbnails);
      urls := SetToList(found);
    }
  }
}
