/** mashle.py: download each chapter's pages as webp images (at most 20 per
    chapter, stopping at the first failed download), convert each to a jpg
    whose path is the webp path with `.webp` replaced, make a chapter PDF
    when any page arrived, and compile the volumes of a hardcoded table,
    each as a cover PDF followed by the chapter PDFs that exist.

    The disk is the set of existing paths; the server's answers for one
    chapter are a list of download outcomes, page 1 first; a PDF merger is
    the list of paths appended to it. */
module Mashle {
  import opened Lists
  import opened Numerals
  import opened Strings
  import opened Probe

  /** The two halves of `BASE_URL` around the chapter's `{}`. */
  const UrlHead := "https://cdn.readkakegurui.com/file/cdnpog/mashle-manga/chapter-"
  const PagesPerChapter := 20

  const SaveDir := "Mashle_Manga"
  const ChaptersDir := "Mashle_Manga/Chapters"
  const VolumesDir := "Mashle_Manga/Volumes"

  const Chapters: seq<int> := Range(75, 163)

  /** The volume table, in insertion order. */
  const Volumes: seq<(string, seq<int>)> := [
    ("Volume_09", Range(75, 83)),
    ("Volume_10", Range(83, 92)),
    ("Volume_11", Range(92, 101)),
    ("Volume_12", Range(101, 110)),
    ("Volume_13", Range(110, 119)),
    ("Volume_14", Range(119, 128)),
    ("Volume_15", Range(128, 137)),
    ("Volume_16", Range(137, 146)),
    ("Volume_17", Range(146, 155)),
    ("Volume_18", Range(155, 163))
  ]

  /** The chapter lists of the table lie between these bounds. */
  const Bounds: seq<int> := [75, 83, 92, 101, 110, 119, 128, 137, 146, 155, 163]

  function ChapterLists(volumes: seq<(string, seq<int>)>): seq<seq<int>> {
    Map(volumes, (v: (string, seq<int>)) => v.1)
  }

  lemma BoundsAscending()
    ensures Ascending(Bounds)
  {
    forall i, j | 0 <= i <= j < |Bounds| ensures Bounds[i] <= Bounds[j] {
      assert Bounds[i] <= Bounds[j];
    }
  }

  lemma TableIsConsecutive()
    ensures ChapterLists(Volumes) == Consecutive(Bounds)
    ensures Ascending(Bounds)
  {
    forall k | 0 <= k < |Volumes| ensures Volumes[k].1 == Range(Bounds[k], Bounds[k + 1]) {
      if k < 5 {
        assert k == 0 || k == 1 || k == 2 || k == 3 || k == 4;
      } else {
        assert k == 5 || k == 6 || k == 7 || k == 8 || k == 9;
      }
    }
    ListsBetweenBounds(Volumes, Bounds);
    BoundsAscending();
  }

  /** A table whose k-th chapter list runs from the k-th bound to the next
      one has the consecutive ranges of its bounds as chapter lists. */
  lemma ListsBetweenBounds(volumes: seq<(string, seq<int>)>, bounds: seq<int>)
    requires |bounds| == |volumes| + 1
    requires forall k :: 0 <= k < |volumes| ==> volumes[k].1 == Range(bounds[k], bounds[k + 1])
    ensures ChapterLists(volumes) == Consecutive(bounds)
  {
    SameElements(ChapterLists(volumes), Consecutive(bounds));
  }

  /** The volumes, concatenated in table order, are exactly `CHAPTERS`. */
  lemma VolumesCoverChapters()
    ensures Flatten(ChapterLists(Volumes)) == Chapters
  {
    TableIsConsecutive();
    FlattenConsecutive(Bounds);
  }

  /** A chapter is in `CHAPTERS` exactly when some volume holds it. */
  lemma ChapterHasVolume(c: int)
    ensures c in Chapters <==> exists k :: 0 <= k < |Volumes| && c in Volumes[k].1
  {
    VolumesCoverChapters();
    FlattenMembers(ChapterLists(Volumes), c);
    ListsAreVolumes(Volumes, c);
  }

  lemma ListsAreVolumes(volumes: seq<(string, seq<int>)>, c: int)
    ensures (exists k :: 0 <= k < |ChapterLists(volumes)| && c in ChapterLists(volumes)[k]) <==>
      exists k :: 0 <= k < |volumes| && c in volumes[k].1
  {
    if exists k :: 0 <= k < |volumes| && c in volumes[k].1 {
      var k :| 0 <= k < |volumes| && c in volumes[k].1;
      assert c in ChapterLists(volumes)[k];
    }
  }

  /** No chapter is in two volumes. */
  lemma VolumeOfChapterUnique(c: int, k1: nat, k2: nat)
    requires k1 < |Volumes| && k2 < |Volumes| && c in Volumes[k1].1 && c in Volumes[k2].1
    ensures k1 == k2
  {
    TableIsConsecutive();
    assert Volumes[k1].1 == ChapterLists(Volumes)[k1] && Volumes[k2].1 == ChapterLists(Volumes)[k2];
    if k1 < k2 {
      ConsecutiveDisjoint(Bounds, k1, k2, c);
    } else if k2 < k1 {
      ConsecutiveDisjoint(Bounds, k2, k1, c);
    }
  }

  /** `BASE_URL.format(chapter, page)`. */
  function PageUrl(chapter: int, page: int): string {
    UrlHead + IntToString(chapter) + "/" + IntToString(page) + ".webp"
  }

  /** The URLs of a chapter's pages, by page number. */
  function PageUrls(chapter: int): int -> string {
    page => PageUrl(chapter, page)
  }

  function ChapterFolder(chapter: int): string {
    ChaptersDir + "/Chapter_" + IntToString(chapter)
  }

  /** The path a page is downloaded to, before its extension. */
  function PageStem(chapter: int, page: int): string {
    ChapterFolder(chapter) + "/" + IntToString(page)
  }

  function WebpPath(chapter: int, page: int): string {
    PageStem(chapter, page) + ".webp"
  }

  /** `img_path.replace(".webp", ".jpg")`. */
  function JpgPath(chapter: int, page: int): string {
    ReplaceAll(WebpPath(chapter, page), ".webp", ".jpg")
  }

  function ChapterPdf(chapter: int): string {
    ChaptersDir + "/Chapter_" + IntToString(chapter) + ".pdf"
  }

  /** No '.' comes before the extension of a page path. */
  lemma PageStemHasNoDot(chapter: int, page: int)
    ensures '.' !in PageStem(chapter, page)
  {
    NoDot(ChaptersDir + "/Chapter_");
    NumberHasNoDot(chapter);
    NumberHasNoDot(page);
  }

  lemma NoDot(s: string)
    requires forall i :: 0 <= i < |s| ==> s[i] != '.'
    ensures '.' !in s
  {
  }

  lemma NumberHasNoDot(n: int)
    ensures '.' !in IntToString(n)
  {
    IntToStringChars(n);
    NoDot(IntToString(n));
  }

  /** The rewrite touches only the extension: the jpg sits beside the webp
      under the same name. */
  lemma JpgPathShape(chapter: int, page: int)
    ensures JpgPath(chapter, page) == PageStem(chapter, page) + ".jpg"
  {
    var stem := PageStem(chapter, page);
    PageStemHasNoDot(chapter, page);
    ReplaceSkipNoHead(stem, ".webp", ".webp", ".jpg");
    assert ".webp" == ".webp" + [];
    ReplaceAtFront([], ".webp", ".jpg");
    assert ReplaceAll(".webp", ".webp", ".jpg") == ".jpg";
  }

  /** A jpg is never a webp, whatever the pages. */
  lemma JpgIsNotWebp(chapter: int, p: int, q: int)
    ensures JpgPath(chapter, p) != WebpPath(chapter, q)
  {
    JpgPathShape(chapter, p);
    var j, w := JpgPath(chapter, p), WebpPath(chapter, q);
    assert j[|j| - 1] == 'g' && w[|w| - 1] == 'p';
  }

  /** Distinct pages get distinct jpgs. */
  lemma JpgPathInjective(chapter: int, p: int, q: int)
    ensures JpgPath(chapter, p) == JpgPath(chapter, q) ==> p == q
  {
    JpgPathShape(chapter, p);
    JpgPathShape(chapter, q);
    if JpgPath(chapter, p) == JpgPath(chapter, q) {
      MiddleEqual(ChapterFolder(chapter) + "/", IntToString(p), IntToString(q), ".jpg");
      IntToStringInjective(p, q);
    }
  }

  /** The webps of pages 1..k. */
  function Webps(chapter: int, k: nat): set<string> {
    if k == 0 then {} else Webps(chapter, k - 1) + {WebpPath(chapter, k)}
  }

  /** The jpgs of pages 1..k. */
  function Jpgs(chapter: int, k: nat): (r: set<string>)
    ensures forall p :: 1 <= p <= k ==> JpgPath(chapter, p) in r
  {
    if k == 0 then {} else Jpgs(chapter, k - 1) + {JpgPath(chapter, k)}
  }

  lemma JpgsAreNotWebps(chapter: int, k: nat, q: int)
    ensures WebpPath(chapter, q) !in Jpgs(chapter, k)
  {
    if k > 0 {
      JpgsAreNotWebps(chapter, k - 1, q);
      JpgIsNotWebp(chapter, k, q);
    }
  }

  /** The disk once pages 1..k are downloaded and converted: each webp was
      removed after its jpg was written. */
  function AfterPages(chapter: int, k: nat, files: set<string>): set<string> {
    (files - Webps(chapter, k)) + Jpgs(chapter, k)
  }

  /** One more page: write its webp, write its jpg, remove its webp. */
  lemma AfterPagesStep(chapter: int, k: nat, files: set<string>)
    ensures AfterPages(chapter, k + 1, files) ==
      ((AfterPages(chapter, k, files) + {WebpPath(chapter, k + 1)}) + {JpgPath(chapter, k + 1)}) - {WebpPath(chapter, k + 1)}
  {
    JpgsAreNotWebps(chapter, k, k + 1);
    JpgIsNotWebp(chapter, k + 1, k + 1);
  }

  /** What the pages loop holds once pages 1..n have arrived and been
      converted: their jpgs, in order, and the disk they leave. */
  ghost predicate Converted(chapter: int, n: nat, images: seq<string>, files: set<string>, files': set<string>) {
    |images| == n && (forall i :: 0 <= i < n ==> images[i] == JpgPath(chapter, i + 1)) &&
    files' == AfterPages(chapter, n, files)
  }

  /** Requesting page n + 1 extends the requests for pages 1..n. */
  lemma RequestNext(chapter: int, n: nat)
    ensures Numbered(PageUrls(chapter), n) + [PageUrl(chapter, n + 1)] == Numbered(PageUrls(chapter), n + 1)
  {
    assert PageUrls(chapter)(n + 1) == PageUrl(chapter, n + 1);
  }

  /** One more page arrives: it is saved as a webp, converted, and its webp
      removed. */
  lemma ConvertedStep(chapter: int, n: nat, images: seq<string>, files: set<string>, files': set<string>)
    requires Converted(chapter, n, images, files, files')
    ensures Converted(chapter, n + 1, images + [JpgPath(chapter, n + 1)],
                      files, ((files' + {WebpPath(chapter, n + 1)}) + {JpgPath(chapter, n + 1)}) - {WebpPath(chapter, n + 1)})
  {
    AfterPagesStep(chapter, n, files);
  }

  /** The pages loop of `download_chapter`: pages 1, 2, ... are requested
      until one fails or 20 have arrived; each page that arrives becomes a
      jpg beside the chapter's other pages. */
  method FetchPages(chapter: int, answers: seq<bool>, files: set<string>)
    returns (requested: seq<string>, images: seq<string>, files': set<string>)
    ensures var k := Min(AvailablePrefix(answers), PagesPerChapter);
      Converted(chapter, k, images, files, files') &&
      requested == Numbered(PageUrls(chapter), |requested|) && |requested| == Min(k + 1, PagesPerChapter)
  {
    requested, images, files' := [], [], files;
    var page := 1;
    while page <= PagesPerChapter
      invariant 1 <= page <= PagesPerChapter + 1
      invariant AvailablePrefix(answers) >= page - 1
      invariant requested == Numbered(PageUrls(chapter), page - 1)
      invariant Converted(chapter, page - 1, images, files, files')
    {
      RequestNext(chapter, page - 1);
      requested := requested + [PageUrl(chapter, page)];
      if !Answer(answers, page) {
        AvailablePrefixStops(answers, page);
        return;
      }
      ConvertedStep(chapter, page - 1, images, files, files');
      AvailablePrefixNext(answers, page);
      files' := files' + {WebpPath(chapter, page)};
      files' := files' + {JpgPath(chapter, page)};
      files' := files' - {WebpPath(chapter, page)};
      images := images + [JpgPath(chapter, page)];
      page := page + 1;
    }
  }

  /** `download_chapter`: the pages are fetched, and the chapter PDF is made
      from their jpgs when there is at least one. */
  method DownloadChapter(chapter: int, answers: seq<bool>, files: set<string>)
    returns (requested: seq<string>, images: seq<string>, pdf: Option<string>, files': set<string>)
    ensures var k := Min(AvailablePrefix(answers), PagesPerChapter);
      |images| == k &&
      (forall i :: 0 <= i < k ==> images[i] == JpgPath(chapter, i + 1)) &&
      |requested| == Min(k + 1, PagesPerChapter) &&
      (forall i :: 0 <= i < |requested| ==> requested[i] == PageUrl(chapter, i + 1)) &&
      files' == AfterPages(chapter, k, files) + (if k > 0 then {ChapterPdf(chapter)} else {})
    ensures |requested| <= PagesPerChapter
    ensures pdf == if images != [] then Some(ChapterPdf(chapter)) else None
  {
    requested, images, files' := FetchPages(chapter, answers, files);
    forall i | 0 <= i < |requested|
      ensures requested[i] == PageUrl(chapter, i + 1)
    {
      NumberedAt(PageUrls(chapter), |requested|, i);
    }
    if images != [] {
      pdf := Some(ChapterPdf(chapter));
      files' := files' + {ChapterPdf(chapter)};
    } else {
      pdf := None;
    }
  }

  /** Cover paths, as `create_volume_cover_pdf` builds them. */
  function CoverWebp(volume: string): string {
    SaveDir + "/" + volume + ".webp"
  }

  function CoverJpgFromWebp(volume: string): string {
    ReplaceAll(CoverWebp(volume), ".webp", ".jpg")
  }

  /** The cover jpg `compile_volumes` reads. */
  function CoverJpg(volume: string): string {
    SaveDir + "/" + volume + ".jpg"
  }

  function CoverPdf(volume: string): string {
    VolumesDir + "/" + volume + "_cover.pdf"
  }

  function VolumePdf(volume: string): string {
    VolumesDir + "/" + volume + ".pdf"
  }

  /** For a volume name without '.', the cover converter writes the very
      jpg that `compile_volumes` reads. */
  lemma CoverJpgPathsAgree(volume: string)
    requires '.' !in volume
    ensures CoverJpgFromWebp(volume) == CoverJpg(volume)
  {
    var stem := SaveDir + "/" + volume;
    assert '.' !in stem by {
      forall i | 0 <= i < |stem| ensures stem[i] != '.' {
        if i > |SaveDir| {
          assert stem[i] == volume[i - |SaveDir| - 1];
        }
      }
    }
    ReplaceSkipNoHead(stem, ".webp", ".webp", ".jpg");
    assert ".webp" == ".webp" + [];
    ReplaceAtFront([], ".webp", ".jpg");
  }

  /** The cover conversion rewrites every ".webp" in the whole path, so
      a name holding ".webp" itself sends the jpg elsewhere. */
  lemma CoverJpgPathsDisagree()
    ensures CoverJpgFromWebp("a.webpb") != CoverJpg("a.webpb")
  {
    var stem := SaveDir + "/a";
    CoverOfOddName();
    var r := CoverJpgFromWebp("a.webpb");
    assert r[|stem| + 1] == 'j';
    CoverJpgOfOddName();
    assert CoverJpg("a.webpb")[|stem| + 1] == 'w';
  }

  lemma CoverOfOddName()
    ensures CoverJpgFromWebp("a.webpb") == (SaveDir + "/a") + (".jpg" + ReplaceAll("b" + ".webp", ".webp", ".jpg"))
  {
    var stem, tail := SaveDir + "/a", "b" + ".webp";
    CoverWebpOfOddName();
    ReplaceSkipNoHead(stem, ".webp" + tail, ".webp", ".jpg");
    ReplaceAtFront(tail, ".webp", ".jpg");
  }

  lemma CoverWebpOfOddName()
    ensures CoverWebp("a.webpb") == (SaveDir + "/a") + (".webp" + ("b" + ".webp"))
  {
    assert "a.webpb" == "a" + (".webp" + "b");
    RegroupMiddle(SaveDir + "/", "a", ".webp", "b", ".webp");
  }

  lemma CoverJpgOfOddName()
    ensures CoverJpg("a.webpb") == (SaveDir + "/a") + (".webp" + ("b" + ".jpg"))
  {
    assert "a.webpb" == "a" + (".webp" + "b");
    RegroupMiddle(SaveDir + "/", "a", ".webp", "b", ".jpg");
  }

  /** `create_volume_cover_pdf`: no cover without the webp; otherwise the
      webp is converted to a jpg and removed, and the cover PDF is made. */
  method CreateVolumeCoverPdf(volume: string, files: set<string>)
    returns (cover: Option<string>, files': set<string>)
    ensures cover == if CoverWebp(volume) in files then Some(CoverPdf(volume)) else None
    ensures files' == if CoverWebp(volume) in files
      then ((files + {CoverJpgFromWebp(volume)}) - {CoverWebp(volume)}) + {CoverPdf(volume)}
      else files
  {
    if CoverWebp(volume) !in files {
      return None, files;
    }
    files' := (files + {CoverJpgFromWebp(volume)}) - {CoverWebp(volume)};
    files' := files' + {CoverPdf(volume)};
    cover := Some(CoverPdf(volume));
  }

  function PdfExists(files: set<string>): int -> bool {
    (c: int) => ChapterPdf(c) in files
  }

  /** The merger of one volume: its cover PDF, then the PDF of each of its
      chapters that has one, in table order. */
  function VolumeMerge(volume: string, chapters: seq<int>, files: set<string>): seq<string> {
    [CoverPdf(volume)] + Map(Filter(chapters, PdfExists(files)), ChapterPdf)
  }

  /** What compiling writes lives under the volumes folder, apart from any
      chapter PDF or cover jpg. */
  lemma OutputsAreNotInputs(volume: string, v: string, c: int)
    ensures CoverPdf(volume) != ChapterPdf(c) && VolumePdf(volume) != ChapterPdf(c)
    ensures CoverPdf(volume) != CoverJpg(v) && VolumePdf(volume) != CoverJpg(v)
  {
    var n := |SaveDir| + 1;
    assert CoverPdf(volume)[n] == 'V' && VolumePdf(volume)[n] == 'V' && ChapterPdf(c)[n] == 'C';
    var a, b, j := CoverPdf(volume), VolumePdf(volume), CoverJpg(v);
    assert a[|a| - 1] == 'f' && b[|b| - 1] == 'f' && j[|j| - 1] == 'g';
  }

  /** The existing chapter PDFs, appended in order by the chapter loop. */
  method AppendExisting(chapters: seq<int>, files: set<string>, merger: seq<string>)
    returns (merged: seq<string>)
    ensures merged == merger + Map(Filter(chapters, PdfExists(files)), ChapterPdf)
  {
    merged := merger;
    for i := 0 to |chapters|
      invariant merged == merger + Map(Filter(chapters[..i], PdfExists(files)), ChapterPdf)
    {
      ExistingStep(chapters, i, files, merger);
      if ChapterPdf(chapters[i]) in files {
        merged := merged + [ChapterPdf(chapters[i])];
      }
    }
    TakeAll(chapters);
  }

  lemma ExistingStep(chapters: seq<int>, i: nat, files: set<string>, merger: seq<string>)
    requires i < |chapters|
    ensures var before := merger + Map(Filter(chapters[..i], PdfExists(files)), ChapterPdf);
            var after := merger + Map(Filter(chapters[..i + 1], PdfExists(files)), ChapterPdf);
            after == if ChapterPdf(chapters[i]) in files then before + [ChapterPdf(chapters[i])] else before
  {
    var before := Map(Filter(chapters[..i], PdfExists(files)), ChapterPdf);
    FilterMapTake(chapters, i, PdfExists(files), ChapterPdf);
    if ChapterPdf(chapters[i]) in files {
      assert PdfExists(files)(chapters[i]);
      AppendAssoc(merger, before, [ChapterPdf(chapters[i])]);
    } else {
      assert !PdfExists(files)(chapters[i]);
      assert before + [] == before;
    }
  }

  /** One volume of `compile_volumes`. The cover check only warns: the jpg
      is then read regardless, so a missing cover jpg raises and ends the
      run (`ok` false, nothing written). Otherwise the cover PDF is written,
      the merger is the cover then the existing chapter PDFs, and the volume
      file is written. */
  method CompileVolume(volume: string, chapters: seq<int>, files: set<string>)
    returns (ok: bool, merged: seq<string>, files': set<string>)
    ensures ok <==> CoverJpg(volume) in files
    ensures !ok ==> files' == files
    ensures ok ==> merged == VolumeMerge(volume, chapters, files)
    ensures ok ==> files' == files + {CoverPdf(volume), VolumePdf(volume)}
  {
    if CoverJpg(volume) !in files {
      return false, [], files;
    }
    files' := files + {CoverPdf(volume)};
    forall c ensures PdfExists(files')(c) == PdfExists(files)(c) {
      OutputsAreNotInputs(volume, volume, c);
    }
    FilterCongruent(chapters, PdfExists(files'), PdfExists(files));
    merged := AppendExisting(chapters, files', [CoverPdf(volume)]);
    files' := files' + {VolumePdf(volume)};
    ok := true;
  }

  /** The PDFs written for the given volumes. */
  function Outputs(volumes: seq<(string, seq<int>)>): set<string> {
    if volumes == [] then {}
    else Outputs(volumes[..|volumes| - 1]) + {CoverPdf(volumes[|volumes| - 1].0), VolumePdf(volumes[|volumes| - 1].0)}
  }

  /** Nothing compiling writes is a chapter PDF or a cover jpg. */
  lemma OutputsAvoidInputs(volumes: seq<(string, seq<int>)>, v: string, c: int)
    ensures ChapterPdf(c) !in Outputs(volumes) && CoverJpg(v) !in Outputs(volumes)
  {
    if volumes != [] {
      OutputsAvoidInputs(volumes[..|volumes| - 1], v, c);
      OutputsAreNotInputs(volumes[|volumes| - 1].0, v, c);
    }
  }

  /** Writing PDFs that are not chapter PDFs leaves a volume's merger as it was. */
  lemma MergeUnchanged(volume: string, chapters: seq<int>, files: set<string>, written: set<string>)
    requires forall c :: ChapterPdf(c) !in written
    ensures VolumeMerge(volume, chapters, files + written) == VolumeMerge(volume, chapters, files)
  {
    FilterCongruent(chapters, PdfExists(files + written), PdfExists(files));
  }

  /** The next volume sees the disk as it was, as far as its inputs go, and
      adds its two PDFs to what was written. */
  lemma CompileStep(volumes: seq<(string, seq<int>)>, i: nat, files: set<string>)
    requires i < |volumes|
    ensures (CoverJpg(volumes[i].0) in files + Outputs(volumes[..i])) == (CoverJpg(volumes[i].0) in files)
    ensures VolumeMerge(volumes[i].0, volumes[i].1, files + Outputs(volumes[..i])) == VolumeMerge(volumes[i].0, volumes[i].1, files)
    ensures Outputs(volumes[..i + 1]) == Outputs(volumes[..i]) + {CoverPdf(volumes[i].0), VolumePdf(volumes[i].0)}
  {
    var v := volumes[i];
    var done := volumes[..i];
    OutputsAvoidInputs(done, v.0, 0);
    MergeIgnoresOutputs(v.0, v.1, files, done);
    OutputsSnoc(volumes, i);
  }

  lemma MergeIgnoresOutputs(volume: string, chapters: seq<int>, files: set<string>, done: seq<(string, seq<int>)>)
    ensures VolumeMerge(volume, chapters, files + Outputs(done)) == VolumeMerge(volume, chapters, files)
  {
    forall c ensures ChapterPdf(c) !in Outputs(done) {
      OutputsAvoidInputs(done, volume, c);
    }
    MergeUnchanged(volume, chapters, files, Outputs(done));
  }

  lemma OutputsSnoc(volumes: seq<(string, seq<int>)>, i: nat)
    requires i < |volumes|
    ensures Outputs(volumes[..i + 1]) == Outputs(volumes[..i]) + {CoverPdf(volumes[i].0), VolumePdf(volumes[i].0)}
  {
    assert volumes[..i + 1][..i] == volumes[..i];
  }

  /** The first |merges| volumes had their cover jpg and were merged from
      the disk as it was. */
  ghost predicate Compiled(volumes: seq<(string, seq<int>)>, files: set<string>, merges: seq<seq<string>>) {
    |merges| <= |volumes| &&
    forall j :: 0 <= j < |merges| ==>
      CoverJpg(volumes[j].0) in files && merges[j] == VolumeMerge(volumes[j].0, volumes[j].1, files)
  }

  lemma CompiledStep(volumes: seq<(string, seq<int>)>, files: set<string>, merges: seq<seq<string>>)
    requires Compiled(volumes, files, merges) && |merges| < |volumes|
    requires CoverJpg(volumes[|merges|].0) in files
    ensures Compiled(volumes, files, merges + [VolumeMerge(volumes[|merges|].0, volumes[|merges|].1, files)])
  {
  }

  /** The compilation finishes exactly when every volume has its cover jpg. */
  lemma FinishedIffCovers(volumes: seq<(string, seq<int>)>, files: set<string>, merges: seq<seq<string>>,
                          aborted: Option<string>)
    requires |merges| <= |volumes|
    requires forall i :: 0 <= i < |merges| ==> CoverJpg(volumes[i].0) in files
    requires aborted.None? <==> |merges| == |volumes|
    requires aborted.Some? ==> CoverJpg(volumes[|merges|].0) !in files
    ensures aborted.None? <==> forall k :: 0 <= k < |volumes| ==> CoverJpg(volumes[k].0) in files
  {
  }

  /** `compile_volumes`: the volumes are compiled in table order until one
      lacks its cover jpg, which ends the run. Every compiled volume's
      merger is its cover and existing chapter PDFs on the disk as it was. */
  method CompileVolumes(volumes: seq<(string, seq<int>)>, files: set<string>)
    returns (merges: seq<seq<string>>, aborted: Option<string>, files': set<string>)
    ensures |merges| <= |volumes|
    ensures forall i :: 0 <= i < |merges| ==>
      CoverJpg(volumes[i].0) in files && merges[i] == VolumeMerge(volumes[i].0, volumes[i].1, files)
    ensures aborted.None? <==> |merges| == |volumes|
    ensures aborted.Some? ==> aborted.value == volumes[|merges|].0 && CoverJpg(volumes[|merges|].0) !in files
    ensures files' == files + Outputs(volumes[..|merges|])
  {
    merges, aborted, files' := [], None, files;
    var i := 0;
    while i < |volumes|
      invariant i <= |volumes| && |merges| == i
      invariant Compiled(volumes, files, merges)
      invariant files' == files + Outputs(volumes[..i])
    {
      var volume := volumes[i].0;
      CompileStep(volumes, i, files);
      var ok, merged, next := CompileVolume(volume, volumes[i].1, files');
      if !ok {
        aborted := Some(volume);
        return;
      }
      CompiledStep(volumes, files, merges);
      merges := merges + [merged];
      files' := next;
      i := i + 1;
    }
    assert volumes[..i] == volumes;
  }

  /** `main`: the download loop is commented out, so a run only compiles
      the volumes of the table. */
  method Run(files: set<string>)
    returns (merges: seq<seq<string>>, aborted: Option<string>, files': set<string>)
    ensures |merges| <= |Volumes|
    ensures aborted.None? <==> forall k :: 0 <= k < |Volumes| ==> CoverJpg(Volumes[k].0) in files
    ensures forall i :: 0 <= i < |merges| ==> merges[i] == VolumeMerge(Volumes[i].0, Volumes[i].1, files)
    ensures aborted.None? <==> |merges| == |Volumes|
    ensures aborted.Some? ==> aborted.value == Volumes[|merges|].0 && CoverJpg(Volumes[|merges|].0) !in files
    ensures files' == files + Outputs(Volumes[..|merges|])
  {
    merges, aborted, files' := CompileVolumes(Volumes, files);
    FinishedIffCovers(Volumes, files, merges, aborted);
  }
}
