/** main.py: merge Dandadan chapter PDFs into volume PDFs. For each volume
    of the table, the cover jpeg (when present) is converted to a one-page
    PDF and appended first, then every file of the sorted `*.pdf` listing
    whose name starts with "Dandadan NNN.pdf" for each chapter NNN of the
    volume, and the merger is written as the volume file.

    The input folder's listing is given as a list of file names in the
    order the file system returns them; the disk is the set of existing
    paths; a PDF merger is the list of paths appended to it. */
module DandadanVolume {
  import opened Lists
  import opened Numerals
  import opened Strings

  const InputDir := "/Users/adil/Downloads/DanDaDanChapter"
  const OutputDir := "/Users/adil/Downloads/DanDaDanVolume"
  const CoverDir := "/Users/adil/Downloads/DanDaDanChapter"

  /** The volume table: volume 18 holds chapters 162 to 176. */
  const Volumes: seq<(int, seq<int>)> := [(18, Range(162, 177))]

  /** `*.pdf`: the names the listing glob keeps. */
  predicate IsPdfName(name: string) {
    ".pdf" <= name[|name| - Min(|name|, 4)..]
  }

  /** `sorted(input_dir.glob("*.pdf"))`: the PDF names of the listing, in
      order. Every entry sits in the input folder, so ordering the paths
      orders the names. */
  function AllPdfFiles(listing: seq<string>): (r: seq<string>)
  {
    Sort(Filter(listing, IsPdfName))
  }

  /** The listing's PDF names, each once as often as listed, sorted. */
  lemma AllPdfFilesSpec(listing: seq<string>)
    ensures Sorted(AllPdfFiles(listing))
    ensures multiset(AllPdfFiles(listing)) == multiset(Filter(listing, IsPdfName))
    ensures forall name :: name in AllPdfFiles(listing) <==> name in listing && IsPdfName(name)
  {
    FilterMembers(listing, IsPdfName);
    var kept := Filter(listing, IsPdfName);
    forall name ensures name in AllPdfFiles(listing) <==> name in kept {
      assert name in AllPdfFiles(listing) <==> name in multiset(AllPdfFiles(listing));
      assert name in kept <==> name in multiset(kept);
    }
  }

  /** The regular expression `Dandadan NNN\.pdf` of a chapter, NNN being
      the chapter zero-padded to three digits. */
  function Pattern(chapter: int): string {
    "Dandadan " + Pad(chapter, 3) + ".pdf"
  }

  /** `pattern.match(name)`: the pattern matches at the start of the name. */
  predicate Matches(chapter: int, name: string) {
    Pattern(chapter) <= name
  }

  /** `str(input_dir / name)`. */
  function InputPath(name: string): string {
    InputDir + "/" + name
  }

  /** `find_chapter_files`: the listed names the chapter's pattern matches,
      in listing order. An empty result only prints a warning. */
  function FindChapterFiles(chapter: int, names: seq<string>): (r: seq<string>)
    ensures |r| <= |names|
  {
    Filter(names, name => Matches(chapter, name))
  }

  /** A name is found exactly when it is listed and matches; the found
      names keep the listing's order, so a sorted listing gives sorted
      matches, and a listing without repeats gives matches without repeats. */
  lemma FindChapterFilesSpec(chapter: int, names: seq<string>)
    ensures forall name :: name in FindChapterFiles(chapter, names) <==> name in names && Matches(chapter, name)
    ensures IsSubsequence(FindChapterFiles(chapter, names), names)
    ensures Sorted(names) ==> Sorted(FindChapterFiles(chapter, names))
    ensures Distinct(names) ==> Distinct(FindChapterFiles(chapter, names))
  {
    var p := name => Matches(chapter, name);
    FilterMembers(names, p);
    FilterIsSubsequence(names, p);
    if Sorted(names) {
      FilterSorted(names, p);
    }
    if Distinct(names) {
      FilterDistinct(names, p);
    }
  }

  /** One chapter's pattern is never a prefix of another's: the '.' after
      the shorter number meets a digit or sign of the longer one. */
  lemma PatternsPrefixFree(c1: int, c2: int)
    ensures Pattern(c1) <= Pattern(c2) ==> c1 == c2
  {
    if |Pad(c1, 3)| < |Pad(c2, 3)| {
      ShorterPatternNotPrefix(c1, c2);
    } else if |Pad(c1, 3)| == |Pad(c2, 3)| {
      SameLengthPatterns(c1, c2);
    }
  }

  lemma ShorterPatternNotPrefix(c1: int, c2: int)
    requires |Pad(c1, 3)| < |Pad(c2, 3)|
    ensures !(Pattern(c1) <= Pattern(c2))
  {
    var p1, p2 := Pattern(c1), Pattern(c2);
    var n1, n2 := Pad(c1, 3), Pad(c2, 3);
    PadChars(c2, 3);
    assert p1[9 + |n1|] == '.';
    assert p2[9 + |n1|] == n2[|n1|];
  }

  lemma SameLengthPatterns(c1: int, c2: int)
    requires |Pad(c1, 3)| == |Pad(c2, 3)|
    ensures Pattern(c1) <= Pattern(c2) ==> c1 == c2
  {
    var p1, p2 := Pattern(c1), Pattern(c2);
    var n1, n2 := Pad(c1, 3), Pad(c2, 3);
    if p1 <= p2 {
      assert n1 == p1[9..9 + |n1|] == p2[9..9 + |n2|] == n2;
      PadInjective(c1, c2, 3);
    }
  }

  /** No file name matches two chapters, so no file is merged for two
      chapters. */
  lemma MatchesOneChapter(c1: int, c2: int, name: string)
    ensures Matches(c1, name) && Matches(c2, name) ==> c1 == c2
  {
    var p1, p2 := Pattern(c1), Pattern(c2);
    if Matches(c1, name) && Matches(c2, name) {
      if |p1| <= |p2| {
        assert p1 == name[..|p1|] == p2[..|p1|];
        PatternsPrefixFree(c1, c2);
      } else {
        assert p2 == name[..|p2|] == p1[..|p2|];
        PatternsPrefixFree(c2, c1);
      }
    }
  }

  /** The paths merged for the chapters, chapter by chapter, each chapter's
      found files in listing order. */
  function ChapterFiles(chapters: seq<int>, names: seq<string>): seq<string> {
    if chapters == [] then []
    else ChapterFiles(chapters[..|chapters| - 1], names) + Map(FindChapterFiles(chapters[|chapters| - 1], names), InputPath)
  }

  /** A path is merged exactly when it is the path of a listed name that
      one of the chapters matches. */
  lemma {:induction false} ChapterFilesMembers(chapters: seq<int>, names: seq<string>, x: string)
    ensures x in ChapterFiles(chapters, names) <==>
      exists c, name :: c in chapters && name in names && Matches(c, name) && x == InputPath(name)
  {
    if chapters != [] {
      var init, last := chapters[..|chapters| - 1], chapters[|chapters| - 1];
      ChapterFilesMembers(init, names, x);
      FoundPaths(last, names, x);
      MatchedByLast(chapters, names, x);
    }
  }

  /** The paths of one chapter's found files. */
  lemma FoundPaths(c: int, names: seq<string>, x: string)
    ensures x in Map(FindChapterFiles(c, names), InputPath) <==>
      exists name :: name in names && Matches(c, name) && x == InputPath(name)
  {
    FindChapterFilesSpec(c, names);
    var found := FindChapterFiles(c, names);
    if x in Map(found, InputPath) {
      var i :| 0 <= i < |found| && Map(found, InputPath)[i] == x;
      assert found[i] in names && Matches(c, found[i]);
    }
    if exists name :: name in names && Matches(c, name) && x == InputPath(name) {
      var name :| name in names && Matches(c, name) && x == InputPath(name);
      var i :| 0 <= i < |found| && found[i] == name;
      assert Map(found, InputPath)[i] == x;
    }
  }

  /** A chapter of a list is one of the list without its last, or the last. */
  lemma MatchedByLast(chapters: seq<int>, names: seq<string>, x: string)
    requires chapters != []
    ensures var init, last := chapters[..|chapters| - 1], chapters[|chapters| - 1];
      (exists c, name :: c in chapters && name in names && Matches(c, name) && x == InputPath(name)) <==>
      (exists c, name :: c in init && name in names && Matches(c, name) && x == InputPath(name)) ||
      (exists name :: name in names && Matches(last, name) && x == InputPath(name))
  {
    var init, last := chapters[..|chapters| - 1], chapters[|chapters| - 1];
    assert chapters == init + [last];
    if exists c, name :: c in chapters && name in names && Matches(c, name) && x == InputPath(name) {
      var c, name :| c in chapters && name in names && Matches(c, name) && x == InputPath(name);
      if c != last {
        assert c in init;
      }
    }
  }

  lemma InputPathInjective(a: string, b: string)
    ensures InputPath(a) == InputPath(b) ==> a == b
  {
    if InputPath(a) == InputPath(b) {
      assert a == InputPath(a)[|InputDir| + 1..];
    }
  }

  lemma MapInputPathDistinct(names: seq<string>)
    requires Distinct(names)
    ensures Distinct(Map(names, InputPath))
  {
    forall i, j | 0 <= i < j < |names| ensures Map(names, InputPath)[i] != Map(names, InputPath)[j] {
      InputPathInjective(names[i], names[j]);
    }
  }

  /** With a listing and a chapter list without repeats, no file is merged
      twice into a volume. */
  lemma {:induction false} ChapterFilesDistinct(chapters: seq<int>, names: seq<string>)
    requires Distinct(chapters) && Distinct(names)
    ensures Distinct(ChapterFiles(chapters, names))
  {
    if chapters != [] {
      var init, last := chapters[..|chapters| - 1], chapters[|chapters| - 1];
      ChapterFilesDistinct(init, names);
      FindChapterFilesSpec(last, names);
      var found := Map(FindChapterFiles(last, names), InputPath);
      MapInputPathDistinct(FindChapterFiles(last, names));
      forall x | x in ChapterFiles(init, names) ensures x !in found {
        ChapterFilesMembers(init, names, x);
        var c, name :| c in init && name in names && Matches(c, name) && x == InputPath(name);
        if x in found {
          var i :| 0 <= i < |found| && found[i] == x;
          var other := FindChapterFiles(last, names)[i];
          InputPathInjective(name, other);
          MatchesOneChapter(c, last, name);
        }
      }
      DistinctConcat(ChapterFiles(init, names), found);
    }
  }

  /** Cover paths of `add_cover_to_pdf`: the jpeg is named with the bare
      volume number, and its PDF is written beside it. */
  function CoverJpeg(volume: int): string {
    CoverDir + "/Volume_" + IntToString(volume) + ".jpeg"
  }

  function CoverPdf(volume: int): string {
    CoverDir + "/Volume_" + IntToString(volume) + ".pdf"
  }

  /** `output_dir / f"Volume_{volume_number:02d}.pdf"`. */
  function VolumeFile(volume: int): string {
    OutputDir + "/Volume_" + Pad(volume, 2) + ".pdf"
  }

  /** The cover PDF lands in the input folder under a name no chapter
      pattern matches, so a later run never merges it as a chapter. */
  lemma CoverNeverMatches(volume: int, chapter: int)
    ensures !Matches(chapter, "Volume_" + IntToString(volume) + ".pdf")
  {
    assert Pattern(chapter)[0] == 'D';
    assert ("Volume_" + IntToString(volume) + ".pdf")[0] == 'V';
  }

  /** ... and it is written into the folder the chapters are listed from. */
  lemma CoverInInputFolder(volume: int)
    ensures CoverPdf(volume) == InputPath("Volume_" + IntToString(volume) + ".pdf")
  {
    assert CoverDir == InputDir;
    var n := IntToString(volume);
    assert CoverDir + "/Volume_" + n + ".pdf" == InputDir + "/" + ("Volume_" + n + ".pdf");
  }

  /** The cover PDF is never a volume file. */
  lemma CoverIsNotVolume(v: int, w: int)
    ensures CoverPdf(v) != VolumeFile(w)
  {
    assert CoverPdf(v)[30] == 'C' && VolumeFile(w)[30] == 'V';
  }

  /** The volume of the table is written to "Volume_18.pdf". */
  lemma VolumeFileExample()
    ensures VolumeFile(18) == OutputDir + "/Volume_18.pdf"
  {
    assert NatToString(1) == "1";
  }

  /** `add_cover_to_pdf`: with the cover jpeg on disk, its PDF is written
      and appended; otherwise only a warning is printed. */
  method AddCover(merger: seq<string>, volume: int, disk: set<string>)
    returns (merger': seq<string>, disk': set<string>)
    ensures CoverJpeg(volume) in disk ==> merger' == merger + [CoverPdf(volume)] && disk' == disk + {CoverPdf(volume)}
    ensures CoverJpeg(volume) !in disk ==> merger' == merger && disk' == disk
  {
    if CoverJpeg(volume) in disk {
      disk' := disk + {CoverPdf(volume)};
      merger' := merger + [CoverPdf(volume)];
    } else {
      merger', disk' := merger, disk;
    }
  }

  /** The cover part of a volume's merger. */
  function CoverPart(volume: int, disk: set<string>): seq<string> {
    if CoverJpeg(volume) in disk then [CoverPdf(volume)] else []
  }

  /** The disk after a volume is created. */
  function AfterVolume(volume: int, disk: set<string>): set<string> {
    disk + (if CoverJpeg(volume) in disk then {CoverPdf(volume)} else {}) + {VolumeFile(volume)}
  }

  /** The inner loop of `create_volume`: the chapter's files are appended
      in order. */
  method AppendChapter(merger: seq<string>, chapter: int, names: seq<string>)
    returns (merger': seq<string>)
    ensures merger' == merger + Map(FindChapterFiles(chapter, names), InputPath)
  {
    var found := FindChapterFiles(chapter, names);
    merger' := merger;
    for j := 0 to |found|
      invariant merger' == merger + Map(found[..j], InputPath)
    {
      MapTake(found, j, InputPath);
      AppendAssoc(merger, Map(found[..j], InputPath), [InputPath(found[j])]);
      merger' := merger' + [InputPath(found[j])];
    }
    TakeAll(found);
  }

  lemma ChapterFilesStep(chapters: seq<int>, i: nat, names: seq<string>)
    requires i < |chapters|
    ensures ChapterFiles(chapters[..i + 1], names) ==
      ChapterFiles(chapters[..i], names) + Map(FindChapterFiles(chapters[i], names), InputPath)
  {
    assert chapters[..i + 1][..i] == chapters[..i];
  }

  /** The outer loop of `create_volume`: each chapter's files are appended
      in chapter order. */
  method AppendChapters(merger: seq<string>, chapters: seq<int>, names: seq<string>)
    returns (merger': seq<string>)
    ensures merger' == merger + ChapterFiles(chapters, names)
  {
    merger' := merger;
    for i := 0 to |chapters|
      invariant merger' == merger + ChapterFiles(chapters[..i], names)
    {
      ChapterFilesStep(chapters, i, names);
      AppendAssoc(merger, ChapterFiles(chapters[..i], names), Map(FindChapterFiles(chapters[i], names), InputPath));
      merger' := AppendChapter(merger', chapters[i], names);
    }
    TakeAll(chapters);
  }

  /** `create_volume`: the merger is the cover (when its jpeg exists), then
      each chapter's matching files, chapter by chapter, and it is written
      as the volume file. */
  method CreateVolume(volume: int, chapters: seq<int>, names: seq<string>, disk: set<string>)
    returns (merged: seq<string>, disk': set<string>)
    ensures merged == CoverPart(volume, disk) + ChapterFiles(chapters, names)
    ensures disk' == AfterVolume(volume, disk)
  {
    merged, disk' := AddCover([], volume, disk);
    merged := AppendChapters(merged, chapters, names);
    disk' := disk' + {VolumeFile(volume)};
  }

  /** `main`: the listing is read once, then each volume of the table is
      created in order. */
  method Run(listing: seq<string>, disk: set<string>)
    returns (merges: seq<seq<string>>, disk': set<string>)
    ensures |merges| == |Volumes|
    ensures forall k :: 0 <= k < |Volumes| ==>
      merges[k] == CoverPart(Volumes[k].0, disk) + ChapterFiles(Volumes[k].1, AllPdfFiles(listing))
    ensures disk' == AfterVolume(18, disk)
  {
    var all := AllPdfFiles(listing);
    merges, disk' := [], disk;
    for k := 0 to |Volumes|
      invariant |merges| == k
      invariant forall j :: 0 <= j < k ==> merges[j] == CoverPart(Volumes[j].0, disk) + ChapterFiles(Volumes[j].1, all)
      invariant disk' == if k == 0 then disk else AfterVolume(18, disk)
    {
      var merged;
      merged, disk' := CreateVolume(Volumes[k].0, Volumes[k].1, all, disk');
      merges := merges + [merged];
    }
  }

  /** In the volume made from a listing without repeats, no file appears
      twice and every chapter file is a matching listed PDF. */
  lemma VolumeMergeShape(listing: seq<string>, disk: set<string>, x: string)
    requires Distinct(listing)
    ensures Distinct(ChapterFiles(Volumes[0].1, AllPdfFiles(listing)))
    ensures x in ChapterFiles(Volumes[0].1, AllPdfFiles(listing)) <==>
      exists c, name :: 162 <= c < 177 && name in listing && IsPdfName(name) && Matches(c, name) && x == InputPath(name)
  {
    var all := AllPdfFiles(listing);
    AllPdfFilesSpec(listing);
    FilterDistinct(listing, IsPdfName);
    assert Distinct(all) by {
      forall i, j | 0 <= i < j < |all| ensures all[i] != all[j] {
        if all[i] == all[j] {
          CountTwice(all, i, j);
          CountOnce(Filter(listing, IsPdfName), all[i]);
        }
      }
    }
    RangeDistinct(162, 177);
    ChapterFilesDistinct(Volumes[0].1, all);
    ChapterFilesMembers(Volumes[0].1, all, x);
    forall c ensures c in Volumes[0].1 <==> 162 <= c < 177 {
      RangeMembers(162, 177, c);
    }
  }

  lemma CountTwice(s: seq<string>, i: nat, j: nat)
    requires i < j < |s| && s[i] == s[j]
    ensures multiset(s)[s[i]] >= 2
  {
    CountAboveOne(s, s[i]);
  }

  lemma CountOnce(s: seq<string>, x: string)
    requires Distinct(s)
    ensures multiset(s)[x] <= 1
  {
    CountAboveOne(s, x);
  }
}
