/** The script embedded in the generated page, as a state machine: the
    current page and its links, each container's display style, the lazy
    loader's observed set and assigned sources, and the modal viewer's
    image index. */
module Viewer {
  import opened Pagination
  import opened Containers
  import opened Navigation

  /** A container's `style` attribute: the text the generator wrote
      (`display:block`, no space), or the text the browser writes back once
      the script assigns `style.display` (`display: block;`). */
  datatype Style = Authored(block: bool) | Scripted(block: bool)

  /** The attribute text a CSS attribute selector is matched against. */
  function StyleText(s: Style): string
  {
    match s
    case Authored(b) => if b then "display:block" else "display:none"
    case Scripted(b) => if b then "display: block;" else "display: none;"
  }

  /** `part` occurs in `text` starting at index `i`. */
  predicate OccursAt(text: string, part: string, i: int)
  {
    0 <= i && i + |part| <= |text| && text[i..i + |part|] == part
  }

  /** `part` occurs somewhere in `text`. */
  predicate ContainsText(text: string, part: string)
  {
    exists i :: 0 <= i <= |text| && OccursAt(text, part, i)
  }

  /** The selector `.image-container[style*="display: block"]` of
      `initObserver`, on one container. */
  predicate SelectorMatches(s: Style)
  {
    ContainsText(StyleText(s), "display: block")
  }

  /** The selector picks exactly the containers the script has shown: an
      authored `display:block` never matches. */
  lemma SelectorMatchesExactly(s: Style)
    ensures SelectorMatches(s) <==> s == Scripted(true)
  {
    if s == Scripted(true) {
      assert OccursAt(StyleText(s), "display: block", 0);
    } else if s == Scripted(false) {
      assert StyleText(s)[0..14][9] != "display: block"[9];
      assert !OccursAt(StyleText(s), "display: block", 0);
    }
  }

  /** The containers `initObserver` starts observing, as written. */
  function ObservedBySelector(styles: seq<Style>): (r: seq<bool>)
    ensures |r| == |styles|
    ensures forall j :: 0 <= j < |styles| ==> (r[j] <==> styles[j] == Scripted(true))
  {
    SelectorMatchesEach(styles);
    seq(|styles|, j requires 0 <= j < |styles| => SelectorMatches(styles[j]))
  }

  lemma SelectorMatchesEach(styles: seq<Style>)
    ensures forall j :: 0 <= j < |styles| ==> (SelectorMatches(styles[j]) <==> styles[j] == Scripted(true))
  {
    forall j | 0 <= j < |styles|
      ensures SelectorMatches(styles[j]) <==> styles[j] == Scripted(true)
    {
      SelectorMatchesExactly(styles[j]);
    }
  }

  /** The containers `initObserver` is meant to observe: those displayed. */
  function ObservedShown(styles: seq<Style>): (r: seq<bool>)
    ensures |r| == |styles|
    ensures forall j :: 0 <= j < |styles| ==> (r[j] <==> styles[j].block)
  {
    seq(|styles|, j requires 0 <= j < |styles| => styles[j].block)
  }

  /** The style attributes of the generated containers. */
  function InitialStyles(w: Wall): (r: seq<Style>)
    ensures w.NoImages? ==> r == []
    ensures w.ImageContainers? ==>
              |r| == |w.items| && forall j :: 0 <= j < |r| ==> r[j] == Authored(w.items[j].visible)
  {
    match w
    case NoImages => []
    case ImageContainers(items) => seq(|items|, j requires 0 <= j < |items| => Authored(items[j].visible))
  }

  /** The `data-page` tags of the generated containers. */
  function Tags(w: Wall): (r: seq<nat>)
    ensures w.NoImages? ==> r == []
    ensures w.ImageContainers? ==>
              |r| == |w.items| && forall j :: 0 <= j < |r| ==> r[j] == w.items[j].page
  {
    match w
    case NoImages => []
    case ImageContainers(items) => seq(|items|, j requires 0 <= j < |items| => items[j].page)
  }

  /** As written, the observer set up on `DOMContentLoaded` observes nothing,
      although the first page's containers are displayed: their images get no
      source until the reader changes page. */
  lemma InitialObserverMissesFirstPage(files: seq<string>, perPage: nat, w: Wall)
    requires perPage > 0 && Renders(w, files, perPage) && files != []
    ensures Authored(true) in InitialStyles(w)
    ensures forall j :: 0 <= j < |files| ==> !ObservedBySelector(InitialStyles(w))[j]
  {
    assert RendersImage(w.items[0], files, perPage, 0);
    FirstPage(1, perPage);
    assert InitialStyles(w)[0] == Authored(true);
  }

  /** Corrected, the first observer watches exactly the first page. */
  lemma CorrectedObserverWatchesFirstPage(files: seq<string>, perPage: nat, w: Wall)
    requires perPage > 0 && Renders(w, files, perPage)
    ensures |ObservedShown(InitialStyles(w))| == |files|
    ensures forall j :: 0 <= j < |files| ==> (ObservedShown(InitialStyles(w))[j] <==> j < perPage)
  {
    forall j | 0 <= j < |files|
      ensures ObservedShown(InitialStyles(w))[j] <==> j < perPage
    {
      assert RendersImage(w.items[j], files, perPage, j);
      FirstPage(j + 1, perPage);
    }
  }

  /** Once the script has written every container's style, as it does before
      each later `initObserver`, the selector and the correction agree. */
  lemma SelectorAgreesOnceScripted(styles: seq<Style>)
    requires forall j :: 0 <= j < |styles| ==> styles[j].Scripted?
    ensures ObservedBySelector(styles) == ObservedShown(styles)
  {
  }

  /** The page's script state after loading the generated document. */
  class GalleryPage {
    const imagesPerPage: nat
    const totalPages: nat
    /** `allImages`: the sorted file names. */
    const allImages: seq<string>
    /** The `data-page` tag of each container. */
    const pageTags: seq<nat>

    var currentPage: int
    var currentImageIndex: int
    /** The page number in the "page p of n" label. */
    var pageInfo: int
    var prevShown: bool
    var nextShown: bool
    /** Each container's style attribute. */
    var styles: seq<Style>
    /** Which containers the intersection observer watches. */
    var observed: seq<bool>
    /** Whether each container's image has been given its `src`. */
    var srcAssigned: seq<bool>
    var modalOpen: bool
    var modalSrc: string
    /** How many times each image's `src` has been assigned. */
    ghost var assignments: seq<nat>

    /** What holds in every state, whatever page is displayed. */
    ghost predicate Layout()
      reads this
    {
      && imagesPerPage > 0
      && totalPages == TotalPages(|allImages|, imagesPerPage)
      && |pageTags| == |allImages|
      && (forall j :: 0 <= j < |pageTags| ==> pageTags[j] == PageOf(j + 1, imagesPerPage))
      && |styles| == |allImages| && |observed| == |allImages|
      && |srcAssigned| == |allImages| && |assignments| == |allImages|
      && (forall j :: 0 <= j < |assignments| ==> assignments[j] <= 1 && (assignments[j] == 1 <==> srcAssigned[j]))
      && 1 <= currentPage <= totalPages
      && (|allImages| == 0 ==> currentImageIndex == 0 && !modalOpen)
      && (|allImages| > 0 ==> 0 <= currentImageIndex < |allImages|)
      && (modalOpen ==> modalSrc == allImages[currentImageIndex])
    }

    /** The links, the label and the displayed containers are those of page `p`. */
    ghost predicate Showing(p: int)
      reads this
      requires Layout()
    {
      && Links(prevShown, nextShown) == LinksFor(p, totalPages)
      && pageInfo == p
      && forall j :: 0 <= j < |styles| ==> (styles[j].block <==> pageTags[j] == p)
    }

    /** The page invariant: the current page is the one displayed, and only
        displayed containers are observed. */
    ghost predicate Valid()
      reads this
    {
      && Layout()
      && Showing(currentPage)
      && forall j :: 0 <= j < |observed| ==> observed[j] ==> styles[j].block
    }

    /** Loading the document generated for `files` and running `initObserver`
        on `DOMContentLoaded`: page 1 displayed, the links as generated, no
        source assigned, and, as the selector is written, no container
        observed. */
    constructor Load(files: seq<string>, perPage: nat)
      requires perPage > 0
      ensures Valid()
      ensures allImages == files && imagesPerPage == perPage
      ensures currentPage == 1 && currentImageIndex == 0 && !modalOpen
      ensures Links(prevShown, nextShown) == PaginationLinks(totalPages)
      ensures forall j :: 0 <= j < |files| ==> (styles[j].block <==> j < perPage)
      ensures observed == ObservedBySelector(styles)
      ensures forall j :: 0 <= j < |files| ==> !observed[j]
      ensures forall j :: 0 <= j < |files| ==> !srcAssigned[j]
    {
      var wall := GenerateImageContainers(files, perPage);
      var total := if |files| > 0 then CeilDiv(|files|, perPage) else 1;
      var links := PaginationLinks(total);
      imagesPerPage := perPage;
      totalPages := total;
      allImages := files;
      pageTags := Tags(wall);
      currentPage := 1;
      currentImageIndex := 0;
      pageInfo := 1;
      prevShown := links.prevShown;
      nextShown := links.nextShown;
      var initial := InitialStyles(wall);
      styles := initial;
      srcAssigned := seq(|files|, j => false);
      assignments := seq(|files|, j => 0);
      modalOpen := false;
      modalSrc := "";
      if files != [] {
        InitialObserverMissesFirstPage(files, perPage, wall);
      }
      observed := ObservedBySelector(initial);
      new;
      forall j | 0 <= j < |files|
        ensures pageTags[j] == PageOf(j + 1, perPage) && (styles[j].block <==> pageTags[j] == 1)
      {
        assert RendersImage(wall.items[j], files, perPage, j);
      }
    }

    /** `changePage(step)`: move to `currentPage + step` and show it, or do
        nothing when that page does not exist. */
    method ChangePage(step: int)
      requires Valid()
      modifies this
      ensures Valid()
      ensures currentPage == StepPage(old(currentPage), step, totalPages)
      ensures 1 <= old(currentPage) + step <= totalPages ==>
                forall j :: 0 <= j < |observed| ==> (observed[j] <==> styles[j].block)
      ensures !(1 <= old(currentPage) + step <= totalPages) ==>
                styles == old(styles) && observed == old(observed) && pageInfo == old(pageInfo)
      ensures srcAssigned == old(srcAssigned) && assignments == old(assignments)
      ensures currentImageIndex == old(currentImageIndex)
      ensures modalOpen == old(modalOpen) && modalSrc == old(modalSrc)
    {
      var newPage := currentPage + step;
      if newPage < 1 || newPage > totalPages {
        return;
      }
      currentPage := newPage;
      ShowPage(currentPage);
    }

    /** `showPage(page)`: label, links, displayed containers and observer
        all switch to `page`. */
    method ShowPage(page: int)
      requires Layout() && 1 <= page <= totalPages
      modifies this
      ensures Layout() && Showing(page)
      ensures forall j :: 0 <= j < |styles| ==> styles[j].Scripted?
      ensures forall j :: 0 <= j < |observed| ==> (observed[j] <==> styles[j].block)
      ensures currentPage == old(currentPage) && currentImageIndex == old(currentImageIndex)
      ensures srcAssigned == old(srcAssigned) && assignments == old(assignments)
      ensures modalOpen == old(modalOpen) && modalSrc == old(modalSrc)
    {
      pageInfo := page;
      prevShown := page > 1;
      nextShown := page < totalPages;
      UpdateVisibleImages(page);
      ResetObserver();
      SelectorAgreesOnceScripted(styles);
    }

    /** `updateVisibleImages(page)`: every container is set to `block` when
        its tag is `page` and to `none` otherwise. */
    method UpdateVisibleImages(page: int)
      requires Layout()
      modifies this
      ensures Layout()
      ensures |styles| == |pageTags|
      ensures forall j :: 0 <= j < |styles| ==> styles[j] == Scripted(pageTags[j] == page)
      ensures currentPage == old(currentPage) && currentImageIndex == old(currentImageIndex)
      ensures pageInfo == old(pageInfo) && prevShown == old(prevShown) && nextShown == old(nextShown)
      ensures observed == old(observed)
      ensures srcAssigned == old(srcAssigned) && assignments == old(assignments)
      ensures modalOpen == old(modalOpen) && modalSrc == old(modalSrc)
    {
      var j := 0;
      while j < |styles|
        invariant Layout()
        invariant 0 <= j <= |styles|
        invariant forall k :: 0 <= k < j ==> styles[k] == Scripted(pageTags[k] == page)
        invariant currentPage == old(currentPage) && currentImageIndex == old(currentImageIndex)
        invariant pageInfo == old(pageInfo) && prevShown == old(prevShown) && nextShown == old(nextShown)
        invariant observed == old(observed)
        invariant srcAssigned == old(srcAssigned) && assignments == old(assignments)
        invariant modalOpen == old(modalOpen) && modalSrc == old(modalSrc)
      {
        styles := styles[j := Scripted(pageTags[j] == page)];
        j := j + 1;
      }
    }

    /** `resetObserver()`: disconnect, then `initObserver()`. */
    method ResetObserver()
      requires Layout()
      modifies this
      ensures Layout()
      ensures observed == ObservedBySelector(styles)
      ensures styles == old(styles)
      ensures currentPage == old(currentPage) && currentImageIndex == old(currentImageIndex)
      ensures pageInfo == old(pageInfo) && prevShown == old(prevShown) && nextShown == old(nextShown)
      ensures srcAssigned == old(srcAssigned) && assignments == old(assignments)
      ensures modalOpen == old(modalOpen) && modalSrc == old(modalSrc)
    {
      observed := seq(|styles|, j => false);
      InitObserver();
    }

    /** `initObserver()` on a disconnected observer: observe every container
        the selector `[style*="display: block"]` matches. */
    method InitObserver()
      requires Layout()
      requires forall j :: 0 <= j < |observed| ==> !observed[j]
      modifies this
      ensures Layout()
      ensures observed == ObservedBySelector(styles)
      ensures styles == old(styles)
      ensures currentPage == old(currentPage) && currentImageIndex == old(currentImageIndex)
      ensures pageInfo == old(pageInfo) && prevShown == old(prevShown) && nextShown == old(nextShown)
      ensures srcAssigned == old(srcAssigned) && assignments == old(assignments)
      ensures modalOpen == old(modalOpen) && modalSrc == old(modalSrc)
    {
      var j := 0;
      while j < |styles|
        invariant Layout()
        invariant 0 <= j <= |styles|
        invariant forall k :: 0 <= k < |observed| ==> (observed[k] <==> k < j && styles[k] == Scripted(true))
        invariant styles == old(styles)
        invariant currentPage == old(currentPage) && currentImageIndex == old(currentImageIndex)
        invariant pageInfo == old(pageInfo) && prevShown == old(prevShown) && nextShown == old(nextShown)
        invariant srcAssigned == old(srcAssigned) && assignments == old(assignments)
        invariant modalOpen == old(modalOpen) && modalSrc == old(modalSrc)
      {
        SelectorMatchesExactly(styles[j]);
        if SelectorMatches(styles[j]) {
          observed := observed[j := true];
        }
        j := j + 1;
      }
    }

    /** The observer's callback for container `j`: when it comes into view
        and its image has no source yet, the source is assigned and the
        container is no longer observed. */
    method OnIntersect(j: nat, isIntersecting: bool)
      requires Valid() && j < |allImages|
      modifies this
      ensures Valid()
      ensures if isIntersecting && old(observed[j]) && !old(srcAssigned[j])
              then srcAssigned == old(srcAssigned)[j := true] && observed == old(observed)[j := false]
              else srcAssigned == old(srcAssigned) && observed == old(observed)
      ensures styles == old(styles) && currentPage == old(currentPage)
      ensures currentImageIndex == old(currentImageIndex)
      ensures modalOpen == old(modalOpen) && modalSrc == old(modalSrc)
      ensures pageInfo == old(pageInfo) && prevShown == old(prevShown) && nextShown == old(nextShown)
    {
      if isIntersecting && observed[j] && !srcAssigned[j] {
        srcAssigned := srcAssigned[j := true];
        assignments := assignments[j := assignments[j] + 1];
        observed := observed[j := false];
      }
    }

    /** `openModal(imgSrc, imgIndex)`, as a container's click calls it with
        its own name and index. */
    method OpenModal(imgSrc: string, imgIndex: int)
      requires Valid() && 0 <= imgIndex < |allImages| && imgSrc == allImages[imgIndex]
      modifies this
      ensures Valid()
      ensures modalOpen && currentImageIndex == imgIndex && modalSrc == imgSrc
      ensures currentPage == old(currentPage) && styles == old(styles) && observed == old(observed)
      ensures srcAssigned == old(srcAssigned) && assignments == old(assignments)
    {
      currentImageIndex := imgIndex;
      modalSrc := imgSrc;
      modalOpen := true;
    }

    /** `closeModal()`. */
    method CloseModal()
      requires Valid()
      modifies this
      ensures Valid()
      ensures !modalOpen && currentImageIndex == old(currentImageIndex) && modalSrc == old(modalSrc)
      ensures pageInfo == old(pageInfo) && prevShown == old(prevShown) && nextShown == old(nextShown)
      ensures currentPage == old(currentPage) && styles == old(styles) && observed == old(observed)
      ensures srcAssigned == old(srcAssigned) && assignments == old(assignments)
    {
      modalOpen := false;
    }

    /** `changeImage(step)`: move the index by `step`, wrapping to the first
        image past the end and to the last before the start, and show that
        image. Only reachable with at least one image (the modal's controls
        exist only once a container was clicked). */
    method ChangeImage(step: int)
      requires Valid() && |allImages| > 0
      modifies this
      ensures Valid()
      ensures currentImageIndex == StepImage(old(currentImageIndex), step, |allImages|)
      ensures modalSrc == allImages[currentImageIndex]
      ensures modalOpen == old(modalOpen)
      ensures currentPage == old(currentPage) && styles == old(styles) && observed == old(observed)
      ensures srcAssigned == old(srcAssigned) && assignments == old(assignments)
    {
      currentImageIndex := currentImageIndex + step;
      if currentImageIndex >= |allImages| {
        currentImageIndex := 0;
      } else if currentImageIndex < 0 {
        currentImageIndex := |allImages| - 1;
      }
      modalSrc := allImages[currentImageIndex];
    }
  }
}
