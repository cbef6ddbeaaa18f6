/** `generate_image_wall` without its file system effects: the listing comes
    in as a sequence of entries and the document goes out as a record of what
    the page embeds, in place of HTML text. */
module ImageWall {
  import opened Lex
  import opened Selection
  import opened Pagination
  import opened Containers

  /** What the generated document carries that the page script relies on:
      the sorted names (`allImages`), the page size, the page count, the
      initial pagination links and the image containers. */
  datatype Document = Document(
    images: seq<string>,
    imagesPerPage: nat,
    totalPages: nat,
    links: Links,
    wall: Wall)

  /** Scan, filter, sort, count pages and render. The page size is never
      checked by the program; a positive one is required here because the
      page count divides by it. */
  method GenerateImageWall(entries: seq<Entry>, imagesPerPage: nat) returns (doc: Document)
    requires imagesPerPage > 0
    ensures Sorted(doc.images)
    ensures multiset(doc.images) == multiset(Selected(entries))
    ensures forall name :: name in doc.images <==>
              exists k :: 0 <= k < |entries| && entries[k].name == name && IsImage(entries[k])
    ensures doc.imagesPerPage == imagesPerPage
    ensures doc.totalPages == TotalPages(|doc.images|, imagesPerPage)
    ensures doc.links == PaginationLinks(doc.totalPages)
    ensures Renders(doc.wall, doc.images, imagesPerPage)
  {
    var found := CollectImages(entries);
    var imageFiles := new string[|found|](k requires 0 <= k < |found| => found[k]);
    assert imageFiles[..] == found;
    SortNames(imageFiles);
    var sorted := imageFiles[..];
    var totalPages := if |sorted| > 0 then CeilDiv(|sorted|, imagesPerPage) else 1;
    var links := PaginationLinks(totalPages);
    var wall := GenerateImageContainers(sorted, imagesPerPage);
    doc := Document(sorted, imagesPerPage, totalPages, links, wall);
    forall name
      ensures name in doc.images <==>
              exists k :: 0 <= k < |entries| && entries[k].name == name && IsImage(entries[k])
    {
      assert name in doc.images <==> name in multiset(doc.images);
      assert name in found <==> name in multiset(found);
      SelectedExactly(entries, name);
    }
  }

  /** The listing of the worked example below. */
  function ExampleEntries(): seq<Entry>
  {
    [Entry("b.png", true), Entry("a.jpg", true), Entry("c.txt", true), Entry("A.PNG", true)]
  }

  lemma ExampleFilterB()
    ensures IsImage(Entry("b.png", true))
  {
    assert "b" + "." + "png" == "b.png";
    SuffixOfStemAndExtension("b", "png");
    assert Lower(".png") == ".png";
  }

  lemma ExampleFilterA()
    ensures IsImage(Entry("a.jpg", true))
  {
    assert "a" + "." + "jpg" == "a.jpg";
    SuffixOfStemAndExtension("a", "jpg");
    assert Lower(".jpg") == ".jpg";
  }

  lemma ExampleFilterC()
    ensures !IsImage(Entry("c.txt", true))
  {
    assert "c" + "." + "txt" == "c.txt";
    SuffixOfStemAndExtension("c", "txt");
    var lowered := Lower(".txt");
    assert lowered == ".txt";
    assert lowered !in ImageExtensions by {
      assert lowered[1] == 't';
      assert forall x :: x in ImageExtensions ==> x[1] != 't';
    }
  }

  lemma ExampleFilterUpper()
    ensures IsImage(Entry("A.PNG", true))
  {
    assert "A" + "." + "PNG" == "A.PNG";
    SuffixOfStemAndExtension("A", "PNG");
    assert Lower(".PNG") == ".png";
  }

  /** Filtering the example listing with any test that keeps all but its
      third entry. */
  lemma ExampleFilterSteps(keep: Entry -> bool)
    requires keep(ExampleEntries()[0]) && keep(ExampleEntries()[1])
    requires !keep(ExampleEntries()[2]) && keep(ExampleEntries()[3])
    ensures Filter(ExampleEntries(), keep) == ["b.png", "a.jpg", "A.PNG"]
  {
    var entries := ExampleEntries();
    assert Filter(entries[..0], keep) == [];
    assert entries[..1][..0] == entries[..0];
    assert Filter(entries[..1], keep) == ["b.png"];
    assert entries[..2][..1] == entries[..1];
    assert Filter(entries[..2], keep) == ["b.png", "a.jpg"];
    assert entries[..3][..2] == entries[..2];
    assert Filter(entries[..3], keep) == ["b.png", "a.jpg"];
    assert entries[..3] == entries[..|entries| - 1];
  }

  lemma ExampleSelected()
    ensures Selected(ExampleEntries()) == ["b.png", "a.jpg", "A.PNG"]
  {
    ExampleFilterB();
    ExampleFilterA();
    ExampleFilterC();
    ExampleFilterUpper();
    ExampleFilterSteps(IsImage);
  }

  lemma ExampleSorted()
    ensures Sorted(["A.PNG", "a.jpg", "b.png"])
  {
    assert LessEq("A.PNG", "a.jpg");
    assert LessEq("a.jpg", "b.png");
    LessEqTransitive("A.PNG", "a.jpg", "b.png");
  }

  /** A worked listing: `b.png`, `a.jpg`, `c.txt` and `A.PNG`, all regular
      files, give exactly `["A.PNG", "a.jpg", "b.png"]`: the suffix test
      ignores case, `c.txt` is dropped, and upper case sorts first. */
  lemma ExampleListing(doc: Document)
    requires Sorted(doc.images)
    requires multiset(doc.images) == multiset(Selected(ExampleEntries()))
    ensures doc.images == ["A.PNG", "a.jpg", "b.png"]
  {
    var expected := ["A.PNG", "a.jpg", "b.png"];
    ExampleSelected();
    ExampleSorted();
    assert multiset(expected) == multiset(["b.png", "a.jpg", "A.PNG"]);
    SortedPermutationUnique(doc.images, expected);
  }
}
