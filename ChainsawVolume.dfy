/** chainsawvolume.py: check the hardcoded volume table for chapters listed
    twice, then build each volume PDF from a cover and per-chapter PDFs,
    making each chapter PDF from the chapter's jpgs unless it already
    exists, and adding each chapter at most once per volume.

    The disk is the set of existing paths; a chapter folder's `*.jpg` glob
    is given as the list of file stems; the images that open are a set of
    paths; a PDF merger is the list of paths appended to it. */
module ChainsawVolume {
  import opened Lists
  import opened Numerals
  import opened Strings

  const ChapterDir := "/Users/adil/Downloads/ChainsawManChapters"
  const OutputDir := "/Users/adil/Downloads/ChainsawManVolume"
  const CoverDir := "/Users/adil/Downloads/ChainsawManVolume"
  const TempDir := "/Users/adil/Downloads/ChainsawTemp"

  /** The volume table, in insertion order. */
  const Volumes: seq<(int, seq<int>)> := [
    (16, Range(134, 144)),
    (17, Range(144, 154)),
    (18, Range(154, 165)),
    (19, Range(165, 176)),
    (20, Range(176, 188))
  ]

  function ChapterLists(volumes: seq<(int, seq<int>)>): seq<seq<int>> {
    Map(volumes, (v: (int, seq<int>)) => v.1)
  }

  /** All chapters of all volumes, in table order. */
  function AllChapters(volumes: seq<(int, seq<int>)>): seq<int> {
    Flatten(ChapterLists(volumes))
  }

  /** The chapter lists of the table lie between these bounds. */
  const Bounds: seq<int> := [134, 144, 154, 165, 176, 188]

  lemma TableIsConsecutive()
    ensures ChapterLists(Volumes) == Consecutive(Bounds)
    ensures Ascending(Bounds)
  {
    var lists, ranges := ChapterLists(Volumes), Consecutive(Bounds);
    assert lists[0] == ranges[0] && lists[1] == ranges[1] && lists[2] == ranges[2];
    assert lists[3] == ranges[3] && lists[4] == ranges[4];
    SameElements(lists, ranges);
    BoundsAscending();
  }

  lemma BoundsAscending()
    ensures Ascending(Bounds)
  {
    forall i, j | 0 <= i <= j < |Bounds| ensures Bounds[i] <= Bounds[j] {
      assert Bounds[i] <= Bounds[j];
    }
  }

  /** The table covers chapters 134 to 187 once each, in order. */
  lemma VolumesContiguous()
    ensures AllChapters(Volumes) == Range(134, 188)
  {
    TableIsConsecutive();
    FlattenConsecutive(Bounds);
  }

  /** The computed duplicate set of the table is empty. */
  lemma VolumesHaveNoDuplicates()
    ensures Duplicates(AllChapters(Volumes)) == {}
  {
    VolumesContiguous();
    RangeDistinct(134, 188);
    DuplicatesEmptyIffDistinct(AllChapters(Volumes));
  }

  /** Any two volumes of the table share no chapter. */
  lemma VolumesDisjoint(i: nat, j: nat, c: int)
    requires i < j < |Volumes|
    ensures !(c in Volumes[i].1 && c in Volumes[j].1)
  {
    TableIsConsecutive();
    assert Volumes[i].1 == ChapterLists(Volumes)[i] && Volumes[j].1 == ChapterLists(Volumes)[j];
    ConsecutiveDisjoint(Bounds, i, j, c);
  }

  /** The loop of `main` that calls `extend` with each volume's chapters. */
  method CollectChapters(volumes: seq<(int, seq<int>)>) returns (all: seq<int>)
    ensures all == AllChapters(volumes)
  {
    all := [];
    for i := 0 to |volumes|
      invariant all == Flatten(ChapterLists(volumes[..i]))
    {
      FlattenSnoc(ChapterLists(volumes[..i]), volumes[i].1);
      MapSnoc(volumes[..i], volumes[i], (v: (int, seq<int>)) => v.1);
      TakeSnoc(volumes, i);
      all := all + volumes[i].1;
    }
    TakeAll(volumes);
  }

  function ChapterFolder(chapter: int): string {
    ChapterDir + "/Chapter_" + IntToString(chapter)
  }

  function JpgOf(chapter: int): string -> string {
    (stem: string) => ChapterFolder(chapter) + "/" + stem + ".jpg"
  }

  /** `temp_dir / f"ChainsawMan_{int(chapter_number):03d}.pdf"`. */
  function ChapterPdf(chapter: int): string {
    TempDir + "/ChainsawMan_" + Pad(chapter, 3) + ".pdf"
  }

  function VolumeFile(volume: int): string {
    OutputDir + "/ChainsawMan_Volume_" + Pad(volume, 2) + ".pdf"
  }

  function CoverJpeg(volume: int): string {
    CoverDir + "/Volume_" + IntToString(volume) + ".jpeg"
  }

  function CoverPdf(volume: int): string {
    TempDir + "/Volume_" + IntToString(volume) + "_cover.pdf"
  }

  /** Different chapters never share a chapter PDF, at any number of digits. */
  lemma ChapterPdfInjective(a: int, b: int)
    ensures ChapterPdf(a) == ChapterPdf(b) ==> a == b
  {
    if ChapterPdf(a) == ChapterPdf(b) {
      MiddleEqual(TempDir + "/ChainsawMan_", Pad(a, 3), Pad(b, 3), ".pdf");
      PadInjective(a, b, 3);
    }
  }

  /** The cover PDF is never a chapter PDF. */
  lemma CoverIsNotChapter(volume: int, chapter: int)
    ensures CoverPdf(volume) != ChapterPdf(chapter)
  {
    CharOfSecondPart(TempDir, "/Volume_", IntToString(volume), "_cover.pdf", 1);
    CharOfSecondPart(TempDir, "/ChainsawMan_", Pad(chapter, 3), ".pdf", 1);
  }

  /** Volume files sit in the output folder, chapter PDFs in the temp folder. */
  lemma VolumeIsNotChapter(volume: int, chapter: int)
    ensures VolumeFile(volume) != ChapterPdf(chapter)
  {
    CharOfFirstPart(OutputDir, "/ChainsawMan_Volume_", Pad(volume, 2), ".pdf", 30);
    CharOfFirstPart(TempDir, "/ChainsawMan_", Pad(chapter, 3), ".pdf", 30);
  }

  lemma VolumeIsNotCover(volume: int, other: int)
    ensures VolumeFile(volume) != CoverPdf(other)
  {
    CharOfFirstPart(OutputDir, "/ChainsawMan_Volume_", Pad(volume, 2), ".pdf", 30);
    CharOfFirstPart(TempDir, "/Volume_", IntToString(other), "_cover.pdf", 30);
  }

  /** Different volumes never share a volume file. */
  lemma VolumeFileInjective(a: int, b: int)
    ensures VolumeFile(a) == VolumeFile(b) ==> a == b
  {
    if VolumeFile(a) == VolumeFile(b) {
      MiddleEqual(OutputDir + "/ChainsawMan_Volume_", Pad(a, 2), Pad(b, 2), ".pdf");
      PadInjective(a, b, 2);
    }
  }

  /** A cover jpeg is none of the PDFs the script writes. */
  lemma JpegIsNotPdf(volume: int, other: int, chapter: int)
    ensures CoverJpeg(volume) != CoverPdf(other)
    ensures CoverJpeg(volume) != VolumeFile(other)
    ensures CoverJpeg(volume) != ChapterPdf(chapter)
  {
    var j, c, v, p := CoverJpeg(volume), CoverPdf(other), VolumeFile(other), ChapterPdf(chapter);
    assert j[|j| - 1] == 'g';
    assert c[|c| - 1] == 'f' && v[|v| - 1] == 'f' && p[|p| - 1] == 'f';
  }

  function Opens(openable: set<string>): string -> bool {
    (path: string) => path in openable
  }

  /** The images a new chapter PDF is made of: the folder's jpgs in the
      string order of their stems, keeping those that open. */
  function OpenedImages(chapter: int, stems: seq<string>, openable: set<string>): seq<string> {
    Filter(Map(Sort(stems), JpgOf(chapter)), Opens(openable))
  }

  /** The loop that opens each image and keeps those that open, in order. */
  method KeepOpenable(imageFiles: seq<string>, openable: set<string>) returns (images: seq<string>)
    ensures images == Filter(imageFiles, Opens(openable))
  {
    images := [];
    for i := 0 to |imageFiles|
      invariant images == Filter(imageFiles[..i], Opens(openable))
    {
      FilterSnoc(imageFiles[..i], imageFiles[i], Opens(openable));
      TakeSnoc(imageFiles, i);
      if imageFiles[i] in openable {
        images := images + [imageFiles[i]];
      }
    }
    TakeAll(imageFiles);
  }

  /** `create_chapter_pdf` returns a path exactly in these cases. */
  predicate Produces(chapter: int, stems: seq<string>, openable: set<string>, files: set<string>) {
    ChapterPdf(chapter) in files || OpenedImages(chapter, stems, openable) != []
  }

  /** The pages of a new chapter PDF follow the stem order and all open. */
  lemma OpenedImagesOrdered(chapter: int, stems: seq<string>, openable: set<string>)
    ensures IsSubsequence(OpenedImages(chapter, stems, openable), Map(Sort(stems), JpgOf(chapter)))
    ensures forall f :: f in OpenedImages(chapter, stems, openable) ==> f in openable
  {
    FilterIsSubsequence(Map(Sort(stems), JpgOf(chapter)), Opens(openable));
    FilterMembers(Map(Sort(stems), JpgOf(chapter)), Opens(openable));
  }

  /** `create_chapter_pdf`: an existing chapter PDF is returned as it is;
      otherwise the PDF is made from the images that open, and nothing is
      returned when the folder has no jpg or none opens. */
  method CreateChapterPdf(chapter: int, stems: seq<string>, openable: set<string>, files: set<string>)
    returns (pdf: Option<string>, images: seq<string>, files': set<string>)
    ensures pdf == if Produces(chapter, stems, openable, files) then Some(ChapterPdf(chapter)) else None
    ensures ChapterPdf(chapter) in files ==> files' == files && images == []
    ensures ChapterPdf(chapter) !in files ==> images == OpenedImages(chapter, stems, openable)
    ensures files' == if pdf.Some? then files + {ChapterPdf(chapter)} else files
  {
    var path := ChapterPdf(chapter);
    if path in files {
      return Some(path), [], files;
    }
    var imageFiles := Map(Sort(stems), JpgOf(chapter));
    if imageFiles == [] {
      return None, [], files;
    }
    images := KeepOpenable(imageFiles, openable);
    if images != [] {
      pdf, files' := Some(path), files + {path};
    } else {
      pdf, files' := None, files;
    }
  }

  /** The disk once the cover of a volume is handled: its PDF exists
      whenever its jpeg does. */
  function AfterCover(volume: int, files: set<string>): set<string> {
    if CoverJpeg(volume) in files then files + {CoverPdf(volume)} else files
  }

  /** `add_cover_to_pdf`: with a cover jpeg the cover PDF is appended,
      converted only when it does not exist yet; without one nothing is. */
  method AddCover(volume: int, files: set<string>)
    returns (appended: seq<string>, converted: bool, files': set<string>)
    ensures appended == if CoverJpeg(volume) in files then [CoverPdf(volume)] else []
    ensures converted <==> CoverJpeg(volume) in files && CoverPdf(volume) !in files
    ensures files' == AfterCover(volume, files)
  {
    appended, converted, files' := [], false, files;
    if CoverJpeg(volume) in files {
      if CoverPdf(volume) !in files {
        files' := files + {CoverPdf(volume)};
        converted := true;
      }
      appended := [CoverPdf(volume)];
    }
  }

  /** Handling the cover writes no chapter PDF, so it changes no chapter's
      outcome. */
  lemma ProducesAfterCover(c: int, volume: int, folders: int -> seq<string>, openable: set<string>,
                           files: set<string>)
    ensures Produces(c, folders(c), openable, AfterCover(volume, files)) == Produces(c, folders(c), openable, files)
  {
    CoverIsNotChapter(volume, c);
  }

  /** The PDFs of a list of chapters. */
  function PdfsOf(chapters: seq<int>): set<string> {
    set c | c in chapters :: ChapterPdf(c)
  }

  function ProducedOn(folders: int -> seq<string>, openable: set<string>, files: set<string>): int -> bool {
    (c: int) => Produces(c, folders(c), openable, files)
  }

  /** The chapters a new volume holds: those that get a PDF, each once, in
      order of first listing. */
  function VolumeChapters(chapters: seq<int>, folders: int -> seq<string>, openable: set<string>,
                          files: set<string>): seq<int> {
    Dedup(Filter(chapters, ProducedOn(folders, openable, files)))
  }

  /** A volume holds each chapter once, only chapters of its list that get
      a PDF, and every such chapter, in the order of their first listing. */
  lemma VolumeChaptersSpec(chapters: seq<int>, folders: int -> seq<string>, openable: set<string>,
                           files: set<string>)
    ensures var held := VolumeChapters(chapters, folders, openable, files);
      Distinct(held) &&
      (forall c :: c in held <==> c in chapters && Produces(c, folders(c), openable, files)) &&
      IsSubsequence(held, chapters) &&
      InFirstOrder(held, chapters)
  {
    DedupFilterFirstOrder(chapters, ProducedOn(folders, openable, files));
    var kept := Filter(chapters, ProducedOn(folders, openable, files));
    DedupSpec(kept);
    FilterMembers(chapters, ProducedOn(folders, openable, files));
    DedupIsSubsequence(kept);
    FilterIsSubsequence(chapters, ProducedOn(folders, openable, files));
    SubsequenceTransitive(Dedup(kept), kept, chapters);
  }

  /** Those properties determine the chapters a volume holds. */
  lemma VolumeChaptersUnique(chapters: seq<int>, folders: int -> seq<string>, openable: set<string>,
                             files: set<string>, held: seq<int>)
    requires Distinct(held)
    requires forall c :: c in held <==> c in chapters && Produces(c, folders(c), openable, files)
    requires InFirstOrder(held, chapters)
    ensures held == VolumeChapters(chapters, folders, openable, files)
  {
    VolumeChaptersSpec(chapters, folders, openable, files);
    FirstOrderUnique(held, VolumeChapters(chapters, folders, openable, files), chapters);
  }

  /** The merger of a new volume: the cover when its jpeg exists, then one
      PDF per held chapter. */
  function VolumeMerge(volume: int, chapters: seq<int>, folders: int -> seq<string>,
                       openable: set<string>, files: set<string>): seq<string> {
    (if CoverJpeg(volume) in files then [CoverPdf(volume)] else []) +
    Map(VolumeChapters(chapters, folders, openable, AfterCover(volume, files)),
        ChapterPdf)
  }

  /** The chapter PDFs on disk after handling the chapters `done`: those
      there before, and one for each handled chapter that produces one. */
  ghost predicate ChapterPdfsMade(now: set<string>, base: set<string>, done: seq<int>,
                                  folders: int -> seq<string>, openable: set<string>)
  {
    forall d :: ChapterPdf(d) in now <==>
      ChapterPdf(d) in base || (d in done && Produces(d, folders(d), openable, base))
  }

  /** Chapter PDFs made while building a volume do not change which later
      chapters produce one. */
  lemma ProducesStable(c: int, folders: int -> seq<string>, openable: set<string>,
                       base: set<string>, now: set<string>, done: seq<int>)
    requires ChapterPdfsMade(now, base, done, folders, openable)
    ensures Produces(c, folders(c), openable, now) == Produces(c, folders(c), openable, base)
  {
  }

  /** Handling one more chapter adds its PDF exactly when it produces one. */
  lemma ChapterPdfsMadeStep(chapters: seq<int>, i: nat, folders: int -> seq<string>, openable: set<string>,
                            base: set<string>, now: set<string>, next: set<string>)
    requires i < |chapters|
    requires ChapterPdfsMade(now, base, chapters[..i], folders, openable)
    requires next == if Produces(chapters[i], folders(chapters[i]), openable, now)
                     then now + {ChapterPdf(chapters[i])} else now
    ensures ChapterPdfsMade(next, base, chapters[..i + 1], folders, openable)
  {
    var c := chapters[i];
    ProducesStable(c, folders, openable, base, now, chapters[..i]);
    forall d ensures ChapterPdf(d) in next <==>
      ChapterPdf(d) in base || (d in chapters[..i + 1] && Produces(d, folders(d), openable, base))
    {
      InTake(chapters, i, d);
      ChapterPdfInjective(d, c);
    }
  }

  /** One step of the volume loop on the list of held chapters. */
  lemma HeldStep(chapters: seq<int>, i: nat, produced: int -> bool)
    requires i < |chapters|
    ensures var c := chapters[i]; var before := Dedup(Filter(chapters[..i], produced));
      Dedup(Filter(chapters[..i + 1], produced)) ==
        if produced(c) && c !in before then before + [c] else before
  {
    var c := chapters[i];
    var kept := Filter(chapters[..i], produced);
    FilterTake(chapters, i, produced);
    if produced(c) {
      DedupSnoc(kept, c);
    } else {
      assert kept + [] == kept;
    }
  }

  /** The state of the chapter loop of `create_volume` after the first `i`
      chapters: the held chapters so far, the `seen` set holding them, the
      merger, and the chapter PDFs made. */
  ghost predicate Handled(chapters: seq<int>, i: nat, folders: int -> seq<string>, openable: set<string>,
                          base: set<string>, coverPart: seq<string>,
                          merged: seq<string>, processed: seq<int>, seen: set<int>, current: set<string>)
  {
    i <= |chapters| &&
    processed == VolumeChapters(chapters[..i], folders, openable, base) &&
    seen == (set c | c in processed) &&
    merged == coverPart + Map(processed, ChapterPdf) &&
    base <= current &&
    ChapterPdfsMade(current, base, chapters[..i], folders, openable)
  }

  /** Facts about chapter `i` shared by both cases of a loop step. */
  lemma HandledCommon(chapters: seq<int>, i: nat, folders: int -> seq<string>, openable: set<string>,
                      base: set<string>, current: set<string>, pdf: Option<string>, next: set<string>)
    requires i < |chapters|
    requires base <= current && ChapterPdfsMade(current, base, chapters[..i], folders, openable)
    requires pdf == if Produces(chapters[i], folders(chapters[i]), openable, current)
                    then Some(ChapterPdf(chapters[i])) else None
    requires next == if pdf.Some? then current + {ChapterPdf(chapters[i])} else current
    ensures pdf.Some? <==> ProducedOn(folders, openable, base)(chapters[i])
    ensures pdf.Some? ==> pdf.value == ChapterPdf(chapters[i])
    ensures base <= next && ChapterPdfsMade(next, base, chapters[..i + 1], folders, openable)
  {
    ProducesStable(chapters[i], folders, openable, base, current, chapters[..i]);
    ChapterPdfsMadeStep(chapters, i, folders, openable, base, current, next);
  }

  /** A chapter that gets a PDF and was not seen yet is appended. */
  lemma HandledAppend(chapters: seq<int>, i: nat, folders: int -> seq<string>, openable: set<string>,
                      base: set<string>, coverPart: seq<string>,
                      merged: seq<string>, processed: seq<int>, seen: set<int>, next: set<string>)
    requires i < |chapters| && chapters[i] !in seen
    requires ProducedOn(folders, openable, base)(chapters[i])
    requires processed == VolumeChapters(chapters[..i], folders, openable, base)
    requires seen == (set c | c in processed)
    requires merged == coverPart + Map(processed, ChapterPdf)
    requires base <= next && ChapterPdfsMade(next, base, chapters[..i + 1], folders, openable)
    ensures Handled(chapters, i + 1, folders, openable, base, coverPart,
                    merged + [ChapterPdf(chapters[i])], processed + [chapters[i]], seen + {chapters[i]}, next)
  {
    var c := chapters[i];
    assert c !in processed;
    HeldStep(chapters, i, ProducedOn(folders, openable, base));
    assert processed + [c] == VolumeChapters(chapters[..i + 1], folders, openable, base);
    SeenStep(seen, processed, c);
    MergedStep(coverPart, merged, processed, c);
  }

  /** The `seen` set follows the list of held chapters. */
  lemma SeenStep(seen: set<int>, processed: seq<int>, c: int)
    requires seen == (set d | d in processed)
    ensures seen + {c} == (set d | d in processed + [c])
  {
  }

  /** The merger follows the list of held chapters. */
  lemma MergedStep(coverPart: seq<string>, merged: seq<string>, processed: seq<int>, c: int)
    requires merged == coverPart + Map(processed, ChapterPdf)
    ensures merged + [ChapterPdf(c)] == coverPart + Map(processed + [c], ChapterPdf)
  {
    MapSnoc(processed, c, ChapterPdf);
    assert coverPart + (Map(processed, ChapterPdf) + [ChapterPdf(c)]) == merged + [ChapterPdf(c)];
  }

  /** A chapter without a PDF, or one already seen, changes nothing. */
  lemma HandledSkip(chapters: seq<int>, i: nat, folders: int -> seq<string>, openable: set<string>,
                    base: set<string>, coverPart: seq<string>,
                    merged: seq<string>, processed: seq<int>, seen: set<int>, next: set<string>)
    requires i < |chapters|
    requires chapters[i] in seen || !ProducedOn(folders, openable, base)(chapters[i])
    requires processed == VolumeChapters(chapters[..i], folders, openable, base)
    requires seen == (set c | c in processed)
    requires merged == coverPart + Map(processed, ChapterPdf)
    requires base <= next && ChapterPdfsMade(next, base, chapters[..i + 1], folders, openable)
    ensures Handled(chapters, i + 1, folders, openable, base, coverPart, merged, processed, seen, next)
  {
    HeldStep(chapters, i, ProducedOn(folders, openable, base));
  }

  /** The chapter loop of `create_volume`: each chapter's PDF is made (or
      found) and appended the first time the chapter is met. */
  method AddChapters(chapters: seq<int>, folders: int -> seq<string>, openable: set<string>,
                     base: set<string>, coverPart: seq<string>)
    returns (merged: seq<string>, processed: seq<int>, current: set<string>)
    ensures processed == VolumeChapters(chapters, folders, openable, base)
    ensures merged == coverPart + Map(processed, ChapterPdf)
    ensures ChapterPdfsMade(current, base, chapters, folders, openable)
    ensures base <= current <= base + PdfsOf(chapters)
  {
    merged := coverPart;
    var seen: set<int> := {};
    processed := [];
    current := base;
    for i := 0 to |chapters|
      invariant Handled(chapters, i, folders, openable, base, coverPart, merged, processed, seen, current)
      invariant current <= base + PdfsOf(chapters)
    {
      var c := chapters[i];
      assert ChapterPdf(c) in PdfsOf(chapters);
      var pdf, images, next := CreateChapterPdf(c, folders(c), openable, current);
      HandledCommon(chapters, i, folders, openable, base, current, pdf, next);
      current := next;
      if pdf.Some? {
        if c in seen {
          HandledSkip(chapters, i, folders, openable, base, coverPart, merged, processed, seen, current);
          continue;
        }
        HandledAppend(chapters, i, folders, openable, base, coverPart, merged, processed, seen, current);
        merged := merged + [pdf.value];
        seen := seen + {c};
        processed := processed + [c];
      } else {
        HandledSkip(chapters, i, folders, openable, base, coverPart, merged, processed, seen, current);
      }
    }
    TakeAll(chapters);
  }

  /** `create_volume`: nothing happens when the volume file exists;
      otherwise the cover and each held chapter are appended and the volume
      file is written, even when nothing was appended. */
  method CreateVolume(volume: int, chapters: seq<int>, folders: int -> seq<string>,
                      openable: set<string>, files: set<string>)
    returns (built: bool, merged: seq<string>, processed: seq<int>, files': set<string>)
    ensures built <==> VolumeFile(volume) !in files
    ensures !built ==> files' == files && merged == [] && processed == []
    ensures built ==> processed == VolumeChapters(chapters, folders, openable, AfterCover(volume, files))
    ensures built ==> merged == VolumeMerge(volume, chapters, folders, openable, files)
    ensures built ==> AfterCover(volume, files) <= files'
    ensures built ==> files' <= AfterCover(volume, files) + PdfsOf(chapters) + {VolumeFile(volume)}
    ensures built ==> ChapterPdfsMade(files', AfterCover(volume, files), chapters, folders, openable)
    ensures files <= files' && VolumeFile(volume) in files'
  {
    if VolumeFile(volume) in files {
      return false, [], [], files;
    }
    var coverPart, converted, base := AddCover(volume, files);
    var current;
    merged, processed, current := AddChapters(chapters, folders, openable, base, coverPart);
    built, files' := true, current + {VolumeFile(volume)};
    forall d ensures ChapterPdf(d) in files' <==> ChapterPdf(d) in current {
      VolumeIsNotChapter(volume, d);
    }
  }

  /** What one volume reads from the disk: the cover jpegs, and whether
      each chapter gets a PDF. */
  ghost predicate SameInputs(now: set<string>, base: set<string>, folders: int -> seq<string>,
                             openable: set<string>)
  {
    (forall v :: CoverJpeg(v) in now <==> CoverJpeg(v) in base) &&
    (forall c :: Produces(c, folders(c), openable, now) <==> Produces(c, folders(c), openable, base))
  }

  /** A volume's merger depends only on what it reads. */
  lemma VolumeMergeSame(volume: int, chapters: seq<int>, folders: int -> seq<string>, openable: set<string>,
                        now: set<string>, base: set<string>)
    requires SameInputs(now, base, folders, openable)
    ensures VolumeMerge(volume, chapters, folders, openable, now) == VolumeMerge(volume, chapters, folders, openable, base)
  {
    var pn := ProducedOn(folders, openable, AfterCover(volume, now));
    var pb := ProducedOn(folders, openable, AfterCover(volume, base));
    forall c | c in chapters ensures pn(c) == pb(c) {
      ProducesAfterCover(c, volume, folders, openable, now);
      ProducesAfterCover(c, volume, folders, openable, base);
    }
    FilterCongruent(chapters, pn, pb);
  }

  /** Building a volume writes its cover PDF, chapter PDFs that were
      producible anyway, and its volume file: nothing a volume reads. */
  lemma BuildKeepsInputs(volume: int, chapters: seq<int>, folders: int -> seq<string>, openable: set<string>,
                         files: set<string>, next: set<string>)
    requires AfterCover(volume, files) <= next
    requires next <= AfterCover(volume, files) + PdfsOf(chapters) + {VolumeFile(volume)}
    requires ChapterPdfsMade(next, AfterCover(volume, files), chapters, folders, openable)
    ensures SameInputs(next, files, folders, openable)
  {
    forall v ensures CoverJpeg(v) in next <==> CoverJpeg(v) in files {
      JpegIsNotPdf(v, volume, 0);
      forall c ensures CoverJpeg(v) != ChapterPdf(c) {
        JpegIsNotPdf(v, volume, c);
      }
    }
    forall c ensures Produces(c, folders(c), openable, next) <==> Produces(c, folders(c), openable, files) {
      ProducesStable(c, folders, openable, AfterCover(volume, files), next, chapters);
      ProducesAfterCover(c, volume, folders, openable, files);
    }
  }

  lemma SameInputsTransitive(a: set<string>, b: set<string>, c: set<string>, folders: int -> seq<string>,
                             openable: set<string>)
    requires SameInputs(a, b, folders, openable) && SameInputs(b, c, folders, openable)
    ensures SameInputs(a, c, folders, openable)
  {
  }

  /** What `create_volume` merges for a volume on a disk: nothing when its
      file exists, its merge otherwise. */
  function VolumeOutcome(v: (int, seq<int>), folders: int -> seq<string>, openable: set<string>,
                         files: set<string>): seq<string> {
    if VolumeFile(v.0) in files then [] else VolumeMerge(v.0, v.1, folders, openable, files)
  }

  function OutcomeOn(folders: int -> seq<string>, openable: set<string>, files: set<string>)
    : ((int, seq<int>)) -> seq<string> {
    (v: (int, seq<int>)) => VolumeOutcome(v, folders, openable, files)
  }

  /** Python dict keys: no volume number is listed twice. */
  predicate DistinctKeys(volumes: seq<(int, seq<int>)>) {
    forall j, k :: 0 <= j < k < |volumes| ==> volumes[j].0 != volumes[k].0
  }

  /** The table lists each volume number once. */
  lemma TableKeysDistinct()
    ensures DistinctKeys(Volumes)
  {
  }

  /** Building volume i leaves the volume files of the later volumes as
      they were. */
  lemma LaterVolumeFilesKept(volumes: seq<(int, seq<int>)>, i: nat, now: set<string>, next: set<string>)
    requires DistinctKeys(volumes) && i < |volumes|
    requires now <= next
    requires next <= AfterCover(volumes[i].0, now) + PdfsOf(volumes[i].1) + {VolumeFile(volumes[i].0)}
    ensures forall j :: i < j < |volumes| ==> (VolumeFile(volumes[j].0) in next <==> VolumeFile(volumes[j].0) in now)
  {
    forall j | i < j < |volumes|
      ensures VolumeFile(volumes[j].0) in next <==> VolumeFile(volumes[j].0) in now
    {
      var w := volumes[j].0;
      VolumeFileInjective(w, volumes[i].0);
      VolumeIsNotCover(w, volumes[i].0);
      forall c ensures VolumeFile(w) != ChapterPdf(c) {
        VolumeIsNotChapter(w, c);
      }
    }
  }

  /** One turn of the volume loop, on a disk that still reads like the
      starting one: the volume gets its outcome on the starting disk, and the
      disk still reads like the starting one afterwards. */
  lemma VolumeStep(volumes: seq<(int, seq<int>)>, i: nat, folders: int -> seq<string>, openable: set<string>,
                   files: set<string>, now: set<string>, built: bool, m: seq<string>, next: set<string>)
    requires DistinctKeys(volumes) && i < |volumes|
    requires files <= now && SameInputs(now, files, folders, openable)
    requires VolumeFile(volumes[i].0) in now <==> VolumeFile(volumes[i].0) in files
    requires var (volume, chapters) := volumes[i];
      (built <==> VolumeFile(volume) !in now) &&
      (!built ==> next == now && m == []) &&
      (built ==> m == VolumeMerge(volume, chapters, folders, openable, now)) &&
      (built ==> AfterCover(volume, now) <= next) &&
      (built ==> next <= AfterCover(volume, now) + PdfsOf(chapters) + {VolumeFile(volume)}) &&
      (built ==> ChapterPdfsMade(next, AfterCover(volume, now), chapters, folders, openable)) &&
      now <= next && VolumeFile(volume) in next
    ensures m == VolumeOutcome(volumes[i], folders, openable, files)
    ensures files <= next && SameInputs(next, files, folders, openable)
    ensures forall j :: i < j < |volumes| ==> (VolumeFile(volumes[j].0) in next <==> VolumeFile(volumes[j].0) in now)
  {
    var (volume, chapters) := volumes[i];
    if built {
      BuildKeepsInputs(volume, chapters, folders, openable, now, next);
      SameInputsTransitive(next, now, files, folders, openable);
      VolumeMergeSame(volume, chapters, folders, openable, now, files);
      LaterVolumeFilesKept(volumes, i, now, next);
    }
  }

  /** What building a volume may write: its cover PDF, its chapter PDFs and
      its volume file. */
  function VolumeWrites(v: (int, seq<int>)): set<string> {
    {CoverPdf(v.0), VolumeFile(v.0)} + PdfsOf(v.1)
  }

  /** What the volume loop may write over the given volumes. */
  function Writes(volumes: seq<(int, seq<int>)>): set<string> {
    UnionOf(volumes, VolumeWrites)
  }

  /** The volume loop never writes a cover jpeg, so every cover it reads
      is one that was there at the start. */
  lemma WritesNoCoverJpeg(volumes: seq<(int, seq<int>)>, volume: int)
    ensures CoverJpeg(volume) !in Writes(volumes)
  {
    forall k | 0 <= k < |volumes|
      ensures CoverJpeg(volume) !in VolumeWrites(volumes[k])
    {
      JpegNotWritten(volume, volumes[k]);
    }
    UnionOfExcludes(volumes, VolumeWrites, CoverJpeg(volume));
  }

  lemma JpegNotWritten(volume: int, v: (int, seq<int>))
    ensures CoverJpeg(volume) !in VolumeWrites(v)
  {
    var j := CoverJpeg(volume);
    JpegIsNotPdf(volume, v.0, v.0);
    assert j !in {CoverPdf(v.0), VolumeFile(v.0)};
    forall c | c in v.1
      ensures j != ChapterPdf(c)
    {
      JpegIsNotPdf(volume, v.0, c);
    }
    assert j !in PdfsOf(v.1);
    assert VolumeWrites(v) == {CoverPdf(v.0), VolumeFile(v.0)} + PdfsOf(v.1);
  }

  /** One turn of the volume loop writes only what its volume may write. */
  lemma WritesStep(volumes: seq<(int, seq<int>)>, i: nat, files: set<string>, now: set<string>,
                   built: bool, next: set<string>)
    requires i < |volumes|
    requires now <= files + Writes(volumes[..i])
    requires !built ==> next == now
    requires built ==> next <= AfterCover(volumes[i].0, now) + PdfsOf(volumes[i].1) + {VolumeFile(volumes[i].0)}
    ensures next <= files + Writes(volumes[..i + 1])
  {
    UnionOfTake(volumes, i, VolumeWrites);
  }

  /** `main`: the duplicate check only warns; every volume is then created.
      A volume whose file was missing is built from the disk as it was at the
      start, since no build writes anything another volume reads. */
  method Run(volumes: seq<(int, seq<int>)>, folders: int -> seq<string>, openable: set<string>,
             files: set<string>)
    returns (duplicates: set<int>, merged: seq<seq<string>>, files': set<string>)
    requires DistinctKeys(volumes)
    ensures duplicates == Duplicates(AllChapters(volumes))
    ensures |merged| == |volumes|
    ensures forall i :: 0 <= i < |volumes| ==> merged[i] == VolumeOutcome(volumes[i], folders, openable, files)
    ensures files <= files' <= files + Writes(volumes)
    ensures forall i :: 0 <= i < |volumes| ==> VolumeFile(volumes[i].0) in files'
  {
    var all := CollectChapters(volumes);
    duplicates := Duplicates(all);
    merged, files' := CreateVolumes(volumes, folders, openable, files);
  }

  /** The volume loop of `main`: each volume is skipped when its file
      exists and otherwise merged as on the starting disk; every volume file
      exists afterwards. */
  method CreateVolumes(volumes: seq<(int, seq<int>)>, folders: int -> seq<string>, openable: set<string>,
                       files: set<string>)
    returns (merged: seq<seq<string>>, files': set<string>)
    requires DistinctKeys(volumes)
    ensures |merged| == |volumes|
    ensures forall i :: 0 <= i < |volumes| ==> merged[i] == VolumeOutcome(volumes[i], folders, openable, files)
    ensures files <= files' <= files + Writes(volumes)
    ensures forall i :: 0 <= i < |volumes| ==> VolumeFile(volumes[i].0) in files'
  {
    merged, files' := [], files;
    for i := 0 to |volumes|
      invariant merged == Map(volumes[..i], OutcomeOn(folders, openable, files))
      invariant files <= files' && SameInputs(files', files, folders, openable)
      invariant files' <= files + Writes(volumes[..i])
      invariant forall j :: 0 <= j < i ==> VolumeFile(volumes[j].0) in files'
      invariant forall j :: i <= j < |volumes| ==> (VolumeFile(volumes[j].0) in files' <==> VolumeFile(volumes[j].0) in files)
    {
      var (volume, chapters) := volumes[i];
      var built, m, processed, next := CreateVolume(volume, chapters, folders, openable, files');
      VolumeStep(volumes, i, folders, openable, files, files', built, m, next);
      WritesStep(volumes, i, files, files', built, next);
      MapTake(volumes, i, OutcomeOn(folders, openable, files));
      merged, files' := merged + [m], next;
    }
    TakeAll(volumes);
  }
}
