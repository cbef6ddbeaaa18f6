# Image wall generator: a Dafny model of its logic

`index.py` scans a directory for image files and writes one static HTML page
that shows them as a paginated wall. The page has lazy loading and a modal
viewer. Most of the program is I/O and HTML/CSS text. This project models the
logic underneath, and proves what it promises:

- **Image selection** (`selection.dfy`, `lex.dfy`). A directory listing is a
  sequence of `Entry(name, isFile)`. It is filtered to regular files whose
  lower-cased suffix is `.jpg`, `.jpeg`, `.png`, `.gif`, `.bmp` or `.webp`.
  The suffix follows `PurePath.suffix`: the text from the last dot, and only
  when that dot is neither the first nor the last character. The names are
  then sorted in place by code-point lexicographic order. The filter loop is a
  method proved against the specification function `Selected`. The sort is an
  in-place insertion sort on an `array<string>`.
- **Pagination arithmetic** (`pagination.dfy`, `containers.dfy`). The page
  count is `ceil(n / perPage)`, or 1 when there are no images. The image at
  1-based position `i` is tagged page `ceil(i / perPage)`. Both use integer
  ceiling division. The rendered containers are records
  `Container(page, visible, index, name)` rather than HTML text. With no
  images, the wall is the single `NoImages` block.
- **The generator** (`image_wall.dfy`). `GenerateImageWall` runs the whole
  pipeline on a listing. It returns a `Document` record holding the sorted
  names, the page size, the page count, the initial links and the wall.
- **The page script** (`navigation.dfy`, `viewer.dfy`). The embedded script
  is a class `GalleryPage`. Its fields are the ones the script changes:
  `currentPage`, `currentImageIndex`, the page label, the link visibility,
  each container's style, the observer's watched set, and each image's
  "source assigned" flag. A ghost counter of source assignments backs the
  "at most once" invariant. The arithmetic of `changePage` and `changeImage`
  is given as the functions `StepPage` and `StepImage`. The class methods are
  proved against them.

Files: `lex.dfy` (string order, sorting uniqueness), `selection.dfy`,
`pagination.dfy`, `containers.dfy`, `image_wall.dfy`, `navigation.dfy`,
`viewer.dfy`.

## Model

| member | source | states |
|---|---|---|
| `Lex.LessEqTotal` | index.py:34 | any two names are comparable in the sort order |
| `Lex.LessEqAntisymmetric` | index.py:34 | two names each below the other are equal |
| `Lex.LessEqTransitive` | index.py:34 | the sort order is transitive |
| `Lex.SortedPermutationUnique` | index.py:34 | two ascending lists with the same names (with multiplicity) are equal, so the sorted list is determined by the selection |
| `Selection.LastDot` | index.py:24 | the index found is a dot, and no dot follows it; -1 means no dot at all |
| `Selection.Suffix` | index.py:24 | the suffix is empty, or it is a proper tail of the name of length at least 2 that starts with its only dot |
| `Selection.SuffixOfStemAndExtension` | index.py:24 | a non-empty stem, a dot and a non-empty dot-free extension have exactly that dot and extension as suffix |
| `Selection.NoSuffixForLeadingOrTrailingDot` | index.py:24 | a name ending in a dot, or whose only dot is the leading one, has an empty suffix |
| `Selection.LowerCharIdentifies` | index.py:24 | two characters lower to the same character iff they are equal or the same ASCII letter in its two cases |
| `Selection.LowerCharPreimage` | index.py:24 | the characters lowered to a non-upper-case `x` are `x` itself and, when `x` is a letter, its upper-case form |
| `Selection.LowerIdentifies` | index.py:24 | two strings lower to the same string iff they agree position by position up to ASCII case |
| `Selection.SuffixIgnoresCase` | index.py:24 | names that differ only by ASCII case have suffixes that differ only by ASCII case |
| `Selection.IsImageIgnoresCase` | index.py:24 | the image test gives the same answer for names that differ only by ASCII case |
| `Selection.ExtensionsAreLowered` | index.py:18 | every allowed extension is already lower case, so lowering leaves it unchanged |
| `Selection.LoweredSuffixAllowed` | index.py:18-24 | a lowered suffix is on the allow-list iff the suffix is an allowed extension written in any mix of ASCII cases |
| `Selection.SelectedExactly` | index.py:18-25 | a name is selected iff some entry with that name is a regular file with an allowed lower-cased suffix |
| `Selection.SelectedCount` | index.py:21-25 | each name is selected as many times as image entries carry it, so the selection is a permutation of the image entries' names |
| `Selection.CollectImages` | index.py:21-25 | the append loop yields exactly `Selected(entries)`, in listing order |
| `Selection.SortNames` | index.py:34 | after the in-place sort the array is ascending and holds the same multiset of names |
| `Pagination.CeilDiv` | index.py:37 | the result `q` is the least value with `n <= q * d` |
| `Pagination.TotalPages` | index.py:37 | the page count is at least 1; it is 1 for no images; for `n > 0`, `(t-1)*perPage < n <= t*perPage` |
| `Pagination.PageOf` | index.py:71 | the tag `p` of position `i` is at least 1 and satisfies `(p-1)*perPage < i <= p*perPage` |
| `Pagination.PageWindow` | index.py:71 | position `i` has tag `p` iff `(p-1)*perPage < i <= p*perPage` |
| `Pagination.PageWindowFrom` | index.py:70-71 | the same window for 0-based positions |
| `Pagination.PageMonotone` | index.py:70-71 | tags never decrease along the list |
| `Pagination.PageInRange` | index.py:71 | every image's tag lies in `[1, TotalPages]` |
| `Pagination.FirstPage` | index.py:71-72 | a position is on page 1 iff it is among the first `perPage` positions |
| `Pagination.LastPageOccupied` | index.py:37 | the last image is tagged with the last page, so no page is empty |
| `Pagination.PageCapacity` | index.py:70-71 | no page holds more than `perPage` positions |
| `Pagination.LinksFor` | index.py:299-300 | the previous link shows iff the page is above 1; the next link shows iff it is below the page count |
| `Pagination.PaginationLinks` | index.py:53-58 | the previous link starts hidden; the next link starts shown iff there is more than one page |
| `Pagination.InitialLinksAreFirstPage` | index.py:56-57 | the generated links equal those `showPage(1)` would set |
| `Containers.GenerateImageContainers` | index.py:60-80 | one container per image in list order, with `data-page` = `PageOf(i)`, modal index `i-1` and its name; `NoImages` iff the list is empty; the first `perPage` start visible and no others; every tag is in `[1, TotalPages]` |
| `Containers.TagsAscend` | index.py:70-71 | container tags never decrease along the wall |
| `Containers.PageHoldsAtMostPerPage` | index.py:69-73 | no page of the wall holds more than `perPage` containers |
| `Containers.ContainersFollowList` | index.py:62-74 | no images give only the `NoImages` block; otherwise container `j` carries modal index `j` and name `files[j]` |
| `ImageWall.GenerateImageWall` | index.py:18-40 | the document's names are ascending, a permutation of the selection, and exactly the image entries' names; the page count is `TotalPages`; the links and the wall are rendered from them |
| `ImageWall.ExampleListing` | index.py:18-34 | the listing `b.png`, `a.jpg`, `c.txt`, `A.PNG` yields exactly `["A.PNG", "a.jpg", "b.png"]` |
| `Navigation.StepPage` | index.py:285-291 | the page moves by `step` when the target is in `[1, totalPages]` and stays put otherwise |
| `Navigation.StepPageInRange` | index.py:286-289 | one `changePage` keeps the page in `[1, totalPages]` |
| `Navigation.PageAfterInRange` | index.py:285-291 | any run of page clicks keeps the page in `[1, totalPages]` |
| `Navigation.NextThenPrevious` | index.py:285-291 | "next" then "previous" returns to the start page when "next" was allowed |
| `Navigation.StepImage` | index.py:380-387 | with at least one image the index stays in `[0, n-1]`; an in-range target is reached by exactly `step` |
| `Navigation.StepImageIsModular` | index.py:380-387 | a step of +1 or -1 from a valid index is that step modulo `n` |
| `Navigation.WrapAround` | index.py:383-386 | +1 from `n-1` gives 0, and -1 from 0 gives `n-1` |
| `Navigation.NextThenPreviousImage` | index.py:380-387 | "previous" undoes "next", wrap-around included |
| `Navigation.ForwardByIsModular` | index.py:380-387 | `m` presses of "next" move the index by `m` modulo `n`, so `n` presses return to the start |
| `Viewer.SelectorMatchesExactly` | index.py:352 | `[style*="display: block"]` matches a container iff its style was written by the script as `block` |
| `Viewer.ObservedBySelector` | index.py:352-354 | the selector observes exactly the script-written `block` containers |
| `Viewer.ObservedShown` | index.py:352-354 | the corrected selection observes exactly the displayed containers |
| `Viewer.InitialStyles` | index.py:72-74 | the generated style attributes are the markup `display:block`/`display:none` of each container's initial visibility |
| `Viewer.Tags` | index.py:74 | the script reads each container's `data-page` tag |
| `Viewer.InitialObserverMissesFirstPage` | index.py:352-354 | on a freshly loaded non-empty wall a container is displayed, yet the selector as written observes no container |
| `Viewer.CorrectedObserverWatchesFirstPage` | index.py:352-354 | corrected, the first observer watches exactly the first `perPage` containers |
| `Viewer.SelectorAgreesOnceScripted` | index.py:313-318 | once every style was written by the script, the selector and the correction pick the same containers |
| `Viewer.GalleryPage.Load` | index.py:276-280 | after loading and the `initObserver` of `DOMContentLoaded`: page 1, index 0, modal closed, links as generated, the first `perPage` containers shown, no source assigned, and, as the selector is written, no container observed; the page invariant holds |
| `Viewer.GalleryPage.ChangePage` | index.py:285-291 | the page becomes `StepPage(old, step)`; a refused step changes nothing; an accepted one shows the new page and observes exactly its containers; sources and the modal are untouched |
| `Viewer.GalleryPage.ShowPage` | index.py:294-310 | label, links and displayed containers become those of `page`; every style is now script-written, so the selector as written watches exactly the displayed containers |
| `Viewer.GalleryPage.UpdateVisibleImages` | index.py:313-319 | every container's style becomes `block` iff its tag equals `page`; nothing else changes |
| `Viewer.GalleryPage.ResetObserver` | index.py:358-363 | after disconnecting and re-initialising, exactly the containers the selector as written matches are observed |
| `Viewer.GalleryPage.InitObserver` | index.py:351-354 | a disconnected observer comes to observe exactly the containers matching `[style*="display: block"]`; nothing else changes |
| `Viewer.GalleryPage.OnIntersect` | index.py:323-345 | an intersecting, observed container whose image has no source gets its source and is unobserved; otherwise nothing changes; each source is assigned at most once (kept in `Valid`) |
| `Viewer.GalleryPage.OpenModal` | index.py:366-372 | the modal opens on the clicked container's index and image |
| `Viewer.GalleryPage.CloseModal` | index.py:375-377 | the modal closes; the index, the modal image and the page state are kept |
| `Viewer.GalleryPage.ChangeImage` | index.py:380-390 | the index becomes `StepImage(old, step, n)`, the modal shows `allImages[index]`, and the page state is untouched |

## Left out

- Filesystem and process effects are left out. These are the `os.chdir` at import, `os.scandir`, and its directory-not-found and permission-denied reports. So are writing the output file, its I/O error report, the printed messages and the argument parser. The listing is an input sequence, and the document is a returned record.
- The HTML/CSS text of `generate_html_content` is left out. This includes the Python list `repr` used as the script's array literal and the unescaped insertion of file names into markup and script.
- Browser geometry and timing are left out: the observer's root margin and threshold, `scrollTo`, and the image `onload`/`onerror` callbacks with their placeholder text. The click and keyboard listeners are left out too. The modal methods need what those listeners ensure: a container exists for `OpenModal`, and there is at least one image for `ChangeImage`.
- The text of the page label and of the modal caption is left out. The label is modelled by its page number only.
- Viewer.GalleryPage.OnIntersect does not model the `img &&` test of the callback, because every generated container holds an image.
- Selection.Lower models ASCII lowering only, where Python's `str.lower` is full Unicode. For this allow-list the answer differs only for suffixes written with characters outside ASCII.
- Selection.Suffix follows `PurePath.suffix` as of Python 3.13. Python 3.14 changes the trailing-dot case. That change does not affect which names are kept.
- Names are Dafny strings of Unicode scalar values. File names that the OS cannot decode, which Python holds as lone surrogates, are not modelled.
- The page size must be positive. The program never checks this. For an empty listing Python would not divide and would report one page; with images, a zero page size would raise an error.
- The page size is a parameter. The function default (20) and the command-line default (50) are not modelled.
- Float division inside `math.ceil` is modelled as exact integer ceiling division. They agree for every realistic count.
- `changePage` refuses an out-of-range step rather than clamping it (`StepPage`). For steps of ±1 the two give the same page.

## Findings

| source | as written | input that shows it | evidently intended | confidence | as-written member | corrected member |
|---|---|---|---|---|---|---|
| index.py:352 | `initObserver` observes `.image-container[style*="display: block"]`, with a space. The generated containers carry `style="display:block"`, without one (index.py:74). Only styles that the script itself rewrote serialise as `display: block;`. | Any directory with at least one image. On `DOMContentLoaded` no container matches, so the first page's images never receive a source until the reader changes page. | Observe every displayed container on first load, so the first page loads lazily like the others. | not executed; high: attribute selectors match the attribute text as written | `Viewer.InitialObserverMissesFirstPage` | `Viewer.CorrectedObserverWatchesFirstPage` |

The page class `Viewer.GalleryPage` follows the script as written: `Load` observes no container. After the first page change every style has been written by the script. From then on the selector as written and the corrected one pick the same containers (`Viewer.SelectorAgreesOnceScripted`). So the two programs differ only before the reader first changes page.
