/** The image containers of the wall: one record per image instead of the
    HTML text `generate_image_containers` emits. */
module Containers {
  import opened Pagination

  /** One `image-container`: its `data-page` tag, whether it starts with
      `display:block`, the index it passes to `openModal`, and the file name. */
  datatype Container = Container(page: nat, visible: bool, index: nat, name: string)

  /** The wall's body: the single "no images" block, or the containers. */
  datatype Wall = NoImages | ImageContainers(items: seq<Container>)

  /** The container rendered for the image at 0-based position `j`. */
  predicate RendersImage(c: Container, files: seq<string>, perPage: nat, j: nat)
    requires perPage > 0 && j < |files|
  {
    c == Container(PageOf(j + 1, perPage), PageOf(j + 1, perPage) == 1, j, files[j])
  }

  /** The wall rendered for `files`: the "no images" block exactly when there
      are none, otherwise one container per image, in list order. */
  predicate Renders(w: Wall, files: seq<string>, perPage: nat)
    requires perPage > 0
  {
    (files == [] <==> w.NoImages?) &&
    (w.ImageContainers? ==>
       |w.items| == |files| &&
       forall j :: 0 <= j < |files| ==> RendersImage(w.items[j], files, perPage, j))
  }

  /** The loop of `generate_image_containers`. Besides the record of each
      container it states what the page tags promise: the first `perPage`
      images start visible and the rest hidden, and every tag is a page of
      the wall. */
  method GenerateImageContainers(files: seq<string>, perPage: nat) returns (w: Wall)
    requires perPage > 0
    ensures Renders(w, files, perPage)
    ensures w.ImageContainers? ==>
              forall j :: 0 <= j < |w.items| ==>
                && (w.items[j].visible <==> j < perPage)
                && 1 <= w.items[j].page <= TotalPages(|files|, perPage)
  {
    if files == [] {
      return NoImages;
    }
    var containers: seq<Container> := [];
    var i := 1;
    while i <= |files|
      invariant 1 <= i <= |files| + 1
      invariant |containers| == i - 1
      invariant forall j :: 0 <= j < i - 1 ==> RendersImage(containers[j], files, perPage, j)
      invariant forall j :: 0 <= j < i - 1 ==>
                  && (containers[j].visible <==> j < perPage)
                  && 1 <= containers[j].page <= TotalPages(|files|, perPage)
    {
      var pageNum := CeilDiv(i, perPage);
      var visible := pageNum == 1;
      FirstPage(i, perPage);
      PageInRange(i, |files|, perPage);
      containers := containers + [Container(pageNum, visible, i - 1, files[i - 1])];
      i := i + 1;
    }
    w := ImageContainers(containers);
  }

  /** Tags never decrease along the rendered containers. */
  lemma TagsAscend(w: Wall, files: seq<string>, perPage: nat, j: nat, k: nat)
    requires perPage > 0 && Renders(w, files, perPage) && w.ImageContainers?
    requires j <= k < |w.items|
    ensures w.items[j].page <= w.items[k].page
  {
    assert RendersImage(w.items[j], files, perPage, j);
    assert RendersImage(w.items[k], files, perPage, k);
    PageMonotone(j + 1, k + 1, perPage);
  }

  /** The containers tagged with a page. */
  function OnPage(items: seq<Container>, p: int): set<int>
  {
    set j: int | 0 <= j < |items| && items[j].page == p
  }

  /** No page of the rendered wall holds more than `perPage` containers. */
  lemma PageHoldsAtMostPerPage(w: Wall, files: seq<string>, perPage: nat, p: int)
    requires perPage > 0 && Renders(w, files, perPage) && w.ImageContainers?
    ensures |OnPage(w.items, p)| <= perPage
  {
    var lo := (p - 1) * perPage;
    var window := Range(lo, lo + perPage);
    assert OnPage(w.items, p) <= window by {
      forall j | j in OnPage(w.items, p)
        ensures lo <= j < lo + perPage
      {
        assert RendersImage(w.items[j], files, perPage, j);
        PageWindowFrom(j, perPage, p, lo);
      }
    }
    RangeSize(lo, lo + perPage);
    SubsetSize(OnPage(w.items, p), window);
  }

  /** With no images there is the one "no images" block and no container;
      otherwise container `j` (0-based) carries modal index `j`, which is
      its 1-based position minus one, and the name of image `j`. */
  lemma ContainersFollowList(w: Wall, files: seq<string>, perPage: nat)
    requires perPage > 0 && Renders(w, files, perPage)
    ensures files == [] ==> w == NoImages
    ensures files != [] ==>
              |w.items| == |files| &&
              forall j :: 0 <= j < |files| ==> w.items[j].index == j && w.items[j].name == files[j]
  {
    if files != [] {
      forall j | 0 <= j < |files|
        ensures w.items[j].index == j && w.items[j].name == files[j]
      {
        assert RendersImage(w.items[j], files, perPage, j);
      }
    }
  }
}
