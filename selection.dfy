/** Choosing the images of a directory listing: regular files whose
    lower-cased suffix is on the allow-list, sorted by name. */
module Selection {
  import opened Lex

  /** One entry of the directory listing: its name and whether it is a
      regular file (`DirEntry.is_file()`). */
  datatype Entry = Entry(name: string, isFile: bool)

  /** The suffixes that mark an image, in lower case. */
  const ImageExtensions: set<string> := {".jpg", ".jpeg", ".png", ".gif", ".bmp", ".webp"}

  /** `str.rfind('.')`: the index of the last dot, or -1 when there is none. */
  function LastDot(s: string): (r: int)
    ensures -1 <= r < |s|
    ensures r >= 0 ==> s[r] == '.'
    ensures forall k :: r < k < |s| ==> s[k] != '.'
  {
    if |s| == 0 then -1
    else if s[|s| - 1] == '.' then |s| - 1
    else LastDot(s[..|s| - 1])
  }

  /** `PurePath(name).suffix`: the text from the last dot, when that dot is
      neither the first nor the last character; otherwise empty. */
  function Suffix(name: string): (r: string)
    ensures r == [] || (|r| >= 2 && |r| < |name| && r == name[|name| - |r|..])
    ensures r != [] ==> r[0] == '.' && forall k :: 0 < k < |r| ==> r[k] != '.'
  {
    var i := LastDot(name);
    if 0 < i < |name| - 1 then name[i..] else []
  }

  /** A name splits into a non-empty stem, a dot and a non-empty extension
      without dots exactly when its suffix is that dot and extension. */
  lemma SuffixOfStemAndExtension(stem: string, ext: string)
    requires |stem| > 0 && |ext| > 0
    requires forall k :: 0 <= k < |ext| ==> ext[k] != '.'
    ensures Suffix(stem + "." + ext) == "." + ext
  {
    var name := stem + "." + ext;
    var i := LastDot(name);
    assert name[|stem|] == '.';
    assert i == |stem| by {
      forall k | |stem| < k < |name| ensures name[k] != '.' {
        assert name[k] == ext[k - |stem| - 1];
      }
    }
    assert name[i..] == "." + ext;
  }

  /** A suffix is empty when the only dot is the leading one (hidden files
      such as ".png") or when the name ends with a dot. */
  lemma NoSuffixForLeadingOrTrailingDot(name: string)
    requires |name| > 0
    requires name[|name| - 1] == '.' || forall k :: 0 < k < |name| ==> name[k] != '.'
    ensures Suffix(name) == []
  {
  }

  /** ASCII upper-case letters become lower case; every other character stays. */
  function LowerChar(c: char): (r: char)
    ensures 'A' <= c <= 'Z' ==> 'a' <= r <= 'z' && r as int - c as int == 32
    ensures !('A' <= c <= 'Z') ==> r == c
  {
    if 'A' <= c <= 'Z' then (c as int + 32) as char else c
  }

  /** `str.lower()` on each character. */
  function Lower(s: string): (r: string)
    ensures |r| == |s|
    ensures forall k :: 0 <= k < |s| ==> r[k] == LowerChar(s[k])
  {
    seq(|s|, k requires 0 <= k < |s| => LowerChar(s[k]))
  }

  /** Two characters that are equal, or the same ASCII letter in its two cases. */
  predicate SameIgnoringCase(c: char, d: char)
  {
    || c == d
    || ('A' <= c <= 'Z' && d as int == c as int + 32)
    || ('A' <= d <= 'Z' && c as int == d as int + 32)
  }

  /** Lowering identifies exactly the characters that differ only by ASCII case. */
  lemma LowerCharIdentifies(c: char, d: char)
    ensures LowerChar(c) == LowerChar(d) <==> SameIgnoringCase(c, d)
  {
  }

  /** The characters lowered to a character `x` that is not an upper-case
      letter: `x` itself, and also its upper-case form when `x` is a letter. */
  lemma LowerCharPreimage(c: char, x: char)
    requires !('A' <= x <= 'Z')
    ensures LowerChar(c) == x <==> c == x || ('a' <= x <= 'z' && c as int == x as int - 32)
  {
  }

  /** Two strings that agree position by position up to ASCII case. */
  predicate CaseVariants(s: string, t: string)
  {
    |s| == |t| && forall k :: 0 <= k < |s| ==> SameIgnoringCase(s[k], t[k])
  }

  /** Two strings lower to the same string iff they differ only by ASCII case. */
  lemma LowerIdentifies(s: string, t: string)
    ensures Lower(s) == Lower(t) <==> CaseVariants(s, t)
  {
    if Lower(s) == Lower(t) {
      forall k | 0 <= k < |s|
        ensures SameIgnoringCase(s[k], t[k])
      {
        assert Lower(s)[k] == Lower(t)[k];
        LowerCharIdentifies(s[k], t[k]);
      }
    }
    if CaseVariants(s, t) {
      forall k | 0 <= k < |s|
        ensures Lower(s)[k] == Lower(t)[k]
      {
        LowerCharIdentifies(s[k], t[k]);
      }
    }
  }

  /** Names that differ only by ASCII case have their last dot at the same
      place, and so suffixes that differ only by case. */
  lemma SuffixIgnoresCase(a: string, b: string)
    requires CaseVariants(a, b)
    ensures CaseVariants(Suffix(a), Suffix(b))
  {
    assert forall k :: 0 <= k < |a| ==> (a[k] == '.' <==> b[k] == '.');
    assert LastDot(a) == LastDot(b);
  }

  /** The image test ignores ASCII case in the name: `photo.JPG`, `PHOTO.jpg`
      and `photo.jpg` are all kept or all dropped. */
  lemma IsImageIgnoresCase(a: string, b: string, isFile: bool)
    requires CaseVariants(a, b)
    ensures IsImage(Entry(a, isFile)) <==> IsImage(Entry(b, isFile))
  {
    SuffixIgnoresCase(a, b);
    LowerIdentifies(Suffix(a), Suffix(b));
  }

  /** No allowed extension has an upper-case letter, so each lowers to itself. */
  lemma ExtensionsAreLowered(x: string)
    requires x in ImageExtensions
    ensures Lower(x) == x
  {
    forall k | 0 <= k < |x|
      ensures LowerChar(x[k]) == x[k]
    {
      assert !('A' <= x[k] <= 'Z');
    }
  }

  /** A lowered suffix is on the allow-list iff the suffix is an allowed
      extension written in any mix of ASCII cases. */
  lemma LoweredSuffixAllowed(s: string)
    ensures Lower(s) in ImageExtensions <==> exists x :: x in ImageExtensions && CaseVariants(s, x)
  {
    if Lower(s) in ImageExtensions {
      var x := Lower(s);
      ExtensionsAreLowered(x);
      LowerIdentifies(s, x);
    }
    if x :| x in ImageExtensions && CaseVariants(s, x) {
      ExtensionsAreLowered(x);
      LowerIdentifies(s, x);
    }
  }

  /** The filter of `generate_image_wall`: a regular file whose lower-cased
      suffix is an image extension. */
  predicate IsImage(e: Entry)
  {
    e.isFile && Lower(Suffix(e.name)) in ImageExtensions
  }

  /** The names of the entries that `keep` accepts, in listing order. */
  function Filter(entries: seq<Entry>, keep: Entry -> bool): (r: seq<string>)
    ensures |r| <= |entries|
  {
    if entries == [] then []
    else Filter(entries[..|entries| - 1], keep)
         + (if keep(entries[|entries| - 1]) then [entries[|entries| - 1].name] else [])
  }

  /** The indices of the entries `keep` accepts that carry `name`. */
  function Hits(entries: seq<Entry>, keep: Entry -> bool, name: string): set<nat>
  {
    set k: nat | k < |entries| && entries[k].name == name && keep(entries[k])
  }

  lemma {:induction false} FilterExactly(entries: seq<Entry>, keep: Entry -> bool, name: string)
    ensures name in Filter(entries, keep) <==>
            exists k :: 0 <= k < |entries| && entries[k].name == name && keep(entries[k])
    decreases |entries|
  {
    if entries != [] {
      var n := |entries| - 1;
      var init := entries[..n];
      FilterExactly(init, keep, name);
      assert forall k :: 0 <= k < n ==> init[k] == entries[k];
    }
  }

  lemma HitsExtend(entries: seq<Entry>, keep: Entry -> bool, name: string)
    requires |entries| > 0
    ensures var n := |entries| - 1;
            Hits(entries, keep, name) ==
            Hits(entries[..n], keep, name) + (if entries[n].name == name && keep(entries[n]) then {n} else {})
  {
    var n := |entries| - 1;
    var init := entries[..n];
    var extra: set<nat> := if entries[n].name == name && keep(entries[n]) then {n} else {};
    forall k: nat | k in Hits(entries, keep, name)
      ensures k in Hits(init, keep, name) + extra
    {
      if k < n {
        assert init[k] == entries[k];
      }
    }
    forall k: nat | k in Hits(init, keep, name)
      ensures k in Hits(entries, keep, name)
    {
      assert init[k] == entries[k];
    }
  }

  lemma {:induction false} FilterCount(entries: seq<Entry>, keep: Entry -> bool, name: string)
    ensures multiset(Filter(entries, keep))[name] == |Hits(entries, keep, name)|
    decreases |entries|
  {
    if entries == [] {
      assert Hits(entries, keep, name) == {};
    } else {
      var n := |entries| - 1;
      var init := entries[..n];
      FilterCount(init, keep, name);
      var last: seq<string> := if keep(entries[n]) then [entries[n].name] else [];
      assert multiset(Filter(entries, keep)) == multiset(Filter(init, keep)) + multiset(last);
      HitsExtend(entries, keep, name);
      assert n !in Hits(init, keep, name);
    }
  }

  /** The names the filter of `generate_image_wall` keeps, in listing order. */
  function Selected(entries: seq<Entry>): seq<string>
  {
    Filter(entries, IsImage)
  }

  /** A name is selected exactly when some entry of the listing carrying that
      name is an image; every other entry is excluded. */
  lemma SelectedExactly(entries: seq<Entry>, name: string)
    ensures name in Selected(entries) <==>
            exists k :: 0 <= k < |entries| && entries[k].name == name && IsImage(entries[k])
  {
    FilterExactly(entries, IsImage, name);
  }

  /** Each name is selected as often as image entries carry it, so the
      selection is a permutation of the image entries' names. */
  lemma SelectedCount(entries: seq<Entry>, name: string)
    ensures multiset(Selected(entries))[name] ==
            |set k: nat | k < |entries| && entries[k].name == name && IsImage(entries[k])|
  {
    FilterCount(entries, IsImage, name);
    assert Hits(entries, IsImage, name) ==
           set k: nat | k < |entries| && entries[k].name == name && IsImage(entries[k]);
  }

  /** The loop of `generate_image_wall` that appends each image entry's name. */
  method CollectImages(entries: seq<Entry>) returns (files: seq<string>)
    ensures files == Selected(entries)
  {
    files := [];
    var i := 0;
    while i < |entries|
      invariant 0 <= i <= |entries|
      invariant files == Filter(entries[..i], IsImage)
    {
      assert entries[..i + 1][..i] == entries[..i];
      if entries[i].isFile && Lower(Suffix(entries[i].name)) in ImageExtensions {
        files := files + [entries[i].name];
      }
      i := i + 1;
    }
    assert entries[..i] == entries;
  }

  /** `list.sort()` on the collected names: ascending, in place, keeping every
      name. */
  method SortNames(a: array<string>)
    modifies a
    ensures Sorted(a[..])
    ensures multiset(a[..]) == old(multiset(a[..]))
  {
    var i := 0;
    while i < a.Length
      invariant 0 <= i <= a.Length
      invariant Sorted(a[..i])
      invariant multiset(a[..]) == old(multiset(a[..]))
    {
      InsertLast(a, i);
      i := i + 1;
    }
    assert a[..i] == a[..];
  }

  /** One pass of insertion sort: `a[i]` sinks into the ascending prefix
      `a[..i]` by swaps. */
  method InsertLast(a: array<string>, i: nat)
    requires i < a.Length && Sorted(a[..i])
    modifies a
    ensures Sorted(a[..i + 1])
    ensures multiset(a[..]) == old(multiset(a[..]))
  {
    var j := i;
    while j > 0 && !LessEq(a[j - 1], a[j])
      invariant 0 <= j <= i
      invariant forall x, y :: 0 <= x < y <= i && x != j && y != j ==> LessEq(a[x], a[y])
      invariant forall y :: j < y <= i ==> LessEq(a[j], a[y])
      invariant multiset(a[..]) == old(multiset(a[..]))
    {
      LessEqTotal(a[j - 1], a[j]);
      a[j - 1], a[j] := a[j], a[j - 1];
      j := j - 1;
    }
    SortedAroundGap(a[..i + 1], j);
  }

  /** An ascending sequence but for position `j`, whose element is below
      everything after it and above what precedes it, is ascending. */
  lemma SortedAroundGap(s: seq<string>, j: nat)
    requires j < |s|
    requires forall x, y :: 0 <= x < y < |s| && x != j && y != j ==> LessEq(s[x], s[y])
    requires forall y :: j < y < |s| ==> LessEq(s[j], s[y])
    requires j == 0 || LessEq(s[j - 1], s[j])
    ensures Sorted(s)
  {
    forall x, y | 0 <= x < y < |s|
      ensures LessEq(s[x], s[y])
    {
      if y == j && x < j - 1 {
        LessEqTransitive(s[x], s[j - 1], s[j]);
      }
    }
  }
}
