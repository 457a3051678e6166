/** SpyXFamily.py: download every page of every chapter of the volume table
    as webp, convert each to jpg, bind each chapter's jpgs into a chapter
    PDF, then merge cover and chapter PDFs into volume PDFs.

    The web server is a per-chapter sequence of responses (page p gets entry
    p - 1, every later page answers 404); the disk is the set of existing
    paths; a PDF merger is the list of paths appended to it. */
module SpyXFamily {
  import opened Lists
  import opened Numerals
  import opened Strings
  import opened Probe

  // The directories `os.path.join(SAVE_DIR, ...)` builds.
  const ChaptersDir := "SpyXFamily/Chapters"
  const VolumesDir := "SpyXFamily/Volumes"
  const CoversDir := "SpyXFamily/Covers"

  /** The volume table; chapter ids are kept as `str()` renders them. */
  const Volumes: seq<(string, seq<string>)> :=
    [("Volume_15", ["100", "101", "102", "103", "104", "105", "105.5",
                    "106", "107", "108", "109", "110", "111"])]

  /** `sanitize_filename`: every `.` of the chapter id becomes `_`. */
  function Sanitize(name: string): (r: string)
    ensures |r| == |name|
    ensures forall i :: 0 <= i < |name| ==> r[i] == if name[i] == '.' then '_' else name[i]
    ensures '.' !in r
  {
    ReplaceCharPointwise(name, '.', '_');
    ReplaceAll(name, ".", "_")
  }

  lemma SanitizeExample()
    ensures Sanitize("105.5") == "105_5"
  {
  }

  /** Chapter ids without `_` keep distinct folder names. */
  lemma SanitizeInjective(a: string, b: string)
    requires '_' !in a && '_' !in b
    ensures Sanitize(a) == Sanitize(b) ==> a == b
  {
    if Sanitize(a) == Sanitize(b) {
      forall i | 0 <= i < |a| ensures a[i] == b[i] {
        assert a[i] != '_' && b[i] != '_';
      }
    }
  }

  function ChapterFolder(ch: string): string {
    ChaptersDir + "/Chapter_" + Sanitize(ch)
  }

  function PageJpg(ch: string, page: nat): string {
    ChapterFolder(ch) + "/Page_" + NatToString(page) + ".jpg"
  }

  function PageWebp(ch: string, page: nat): string {
    ChapterFolder(ch) + "/Page_" + NatToString(page) + ".webp"
  }

  /** The chapter PDF path; `convert_images_to_pdf` writes it and
      `compile_volumes` looks for it, both through this one function. */
  function ChapterPdf(ch: string): string {
    ChapterFolder(ch) + "/Chapter_" + Sanitize(ch) + ".pdf"
  }

  function CoverJpeg(volume: string): string {
    CoversDir + "/" + volume + ".jpeg"
  }

  function CoverPdf(volume: string): string {
    CoversDir + "/" + volume + ".pdf"
  }

  function VolumePdf(volume: string): string {
    VolumesDir + "/" + volume + ".pdf"
  }

  /** Distinct chapter ids (without `_`) get distinct chapter PDFs, so no
      chapter is merged in place of another. */
  lemma ChapterPdfInjective(a: string, b: string)
    requires '_' !in a && '_' !in b
    ensures ChapterPdf(a) == ChapterPdf(b) ==> a == b
  {
    if ChapterPdf(a) == ChapterPdf(b) {
      var pre := ChaptersDir + "/Chapter_";
      assert |Sanitize(a)| == |Sanitize(b)|;
      assert ChapterPdf(a)[..|pre| + |Sanitize(a)|] == pre + Sanitize(a);
      assert ChapterPdf(b)[..|pre| + |Sanitize(b)|] == pre + Sanitize(b);
      MiddleEqual(pre, Sanitize(a), Sanitize(b), []);
      SanitizeInjective(a, b);
    }
  }

  /** Page files of one chapter are told apart by their page number. */
  lemma PageJpgInjective(ch: string, p: nat, q: nat)
    ensures PageJpg(ch, p) == PageJpg(ch, q) ==> p == q
  {
    if PageJpg(ch, p) == PageJpg(ch, q) {
      MiddleEqual(ChapterFolder(ch) + "/Page_", NatToString(p), NatToString(q), ".jpg");
      NatToStringInjective(p, q);
    }
  }

  /** A jpg is never a webp: the last characters differ. */
  lemma JpgIsNotWebp(ch: string, p: nat, ch2: string, q: nat)
    ensures PageJpg(ch, p) != PageWebp(ch2, q)
  {
    var j, w := PageJpg(ch, p), PageWebp(ch2, q);
    assert j[|j| - 1] == 'g';
    assert w[|w| - 1] == 'p';
  }

  /** Chapter PDFs live apart from cover and volume PDFs. */
  lemma ChapterPdfIsNotCoverOrVolume(ch: string, volume: string)
    ensures ChapterPdf(ch) != CoverPdf(volume)
    ensures ChapterPdf(ch) != CoverJpeg(volume)
    ensures ChapterPdf(ch) != VolumePdf(volume)
  {
    assert ChapterPdf(ch)[12] == 'h' && ChapterPdf(ch)[11] == 'C';
    assert CoverPdf(volume)[12] == 'o' && CoverJpeg(volume)[12] == 'o';
    assert VolumePdf(volume)[11] == 'V';
  }

  /** Cover jpegs are neither cover PDFs nor volume PDFs. */
  lemma CoverJpegIsNotPdf(a: string, b: string)
    ensures CoverJpeg(a) != CoverPdf(b) && CoverJpeg(a) != VolumePdf(b)
  {
    var j, c, v := CoverJpeg(a), CoverPdf(b), VolumePdf(b);
    assert j[|j| - 1] == 'g' && c[|c| - 1] == 'f' && v[|v| - 1] == 'f';
  }

  /** One HTTP answer: its status code and whether the webp body converts
      to jpg. */
  datatype Response = Response(status: int, converts: bool)

  /** `download_image` returns a jpg path exactly for these answers. */
  predicate Kept(r: Response) {
    r.status == 200 && r.converts
  }

  /** The answer for page `page` (from 1); pages past the record answer 404. */
  function Fetch(responses: seq<Response>, page: nat): Response {
    if 1 <= page <= |responses| then responses[page - 1] else Response(404, false)
  }

  function KeptPages(responses: seq<Response>): seq<bool> {
    Map(responses, Kept)
  }

  /** `download_image`: a 200 answer writes the webp; a conversion that
      succeeds writes the jpg and removes the webp, one that fails leaves
      the webp behind. */
  method DownloadImage(ch: string, page: nat, response: Response, files: set<string>)
    returns (jpg: Option<string>, files': set<string>)
    ensures jpg.Some? <==> Kept(response)
    ensures jpg.Some? ==> jpg.value == PageJpg(ch, page)
    ensures files' == if Kept(response) then files - {PageWebp(ch, page)} + {PageJpg(ch, page)}
                      else if response.status == 200 then files + {PageWebp(ch, page)}
                      else files
  {
    if response.status == 200 {
      files' := files + {PageWebp(ch, page)};
      if response.converts {
        files' := files' + {PageJpg(ch, page)};
        files' := files' - {PageWebp(ch, page)};
        JpgIsNotWebp(ch, page, ch, page);
        jpg := Some(PageJpg(ch, page));
      } else {
        jpg := None;
      }
    } else {
      files' := files;
      jpg := None;
    }
  }

  function JpgsUpTo(ch: string, k: nat): set<string> {
    if k == 0 then {} else JpgsUpTo(ch, k - 1) + {PageJpg(ch, k)}
  }

  function WebpsUpTo(ch: string, k: nat): set<string> {
    if k == 0 then {} else WebpsUpTo(ch, k - 1) + {PageWebp(ch, k)}
  }

  /** The page jpgs written for pages 1..k are exactly those pages. */
  lemma {:induction false} JpgsUpToMembers(ch: string, k: nat, q: nat)
    ensures PageJpg(ch, q) in JpgsUpTo(ch, k) <==> 1 <= q <= k
  {
    if k > 0 {
      JpgsUpToMembers(ch, k - 1, q);
      PageJpgInjective(ch, q, k);
    }
  }

  lemma {:induction false} WebpNotInJpgs(ch: string, k: nat, ch2: string, q: nat)
    ensures PageWebp(ch2, q) !in JpgsUpTo(ch, k)
  {
    if k > 0 {
      WebpNotInJpgs(ch, k - 1, ch2, q);
      JpgIsNotWebp(ch, k, ch2, q);
    }
  }

  lemma {:induction false} JpgNotInWebps(ch: string, k: nat, ch2: string, q: nat)
    ensures PageJpg(ch2, q) !in WebpsUpTo(ch, k)
  {
    if k > 0 {
      JpgNotInWebps(ch, k - 1, ch2, q);
      JpgIsNotWebp(ch2, q, ch, k);
    }
  }

  /** The disk after pages 1..k were kept: their webps are gone and their
      jpgs are there. */
  function AfterPages(ch: string, k: nat, files: set<string>): set<string> {
    (files - WebpsUpTo(ch, k)) + JpgsUpTo(ch, k)
  }

  /** Keeping one more page: its webp goes, its jpg comes. */
  lemma KeptStep(ch: string, page: nat, files: set<string>)
    requires page >= 1
    ensures AfterPages(ch, page - 1, files) - {PageWebp(ch, page)} + {PageJpg(ch, page)} == AfterPages(ch, page, files)
  {
    WebpNotInJpgs(ch, page - 1, ch, page);
  }

  /** The disk after the page loop: the kept pages as jpgs, plus the webp of
      the page that answered 200 but did not convert. */
  function AfterDownload(ch: string, responses: seq<Response>, files: set<string>): set<string> {
    var saved := AvailablePrefix(KeptPages(responses));
    AfterPages(ch, saved, files) +
      (if Fetch(responses, saved + 1).status == 200 then {PageWebp(ch, saved + 1)} else {})
  }

  /** The page loop of `process_chapters`: pages 1, 2, ... are downloaded
      until the first one `download_image` does not keep. */
  method DownloadPages(ch: string, responses: seq<Response>, files: set<string>)
    returns (saved: nat, files': set<string>)
    ensures saved == AvailablePrefix(KeptPages(responses))
    ensures files' == AfterPages(ch, saved, files) +
      (if Fetch(responses, saved + 1).status == 200 then {PageWebp(ch, saved + 1)} else {})
  {
    var page := 1;
    files' := files;
    while true
      invariant 1 <= page <= |responses| + 1
      invariant forall j :: 0 <= j < page - 1 ==> Kept(responses[j])
      invariant files' == AfterPages(ch, page - 1, files)
      decreases |responses| + 1 - page
    {
      var jpg;
      KeptStep(ch, page, files);
      jpg, files' := DownloadImage(ch, page, Fetch(responses, page), files');
      if jpg == None {
        break;
      }
      page := page + 1;
    }
    saved := page - 1;
    assert saved < |responses| ==> !Kept(responses[saved]);
    AvailablePrefixUnique(KeptPages(responses), saved);
  }

  /** `convert_images_to_pdf`: pages Page_1.jpg, Page_2.jpg, ... are added
      up to the first missing file; the PDF is written when one was added. */
  method ConvertImagesToPdf(ch: string, files: set<string>)
    returns (pages: seq<string>, files': set<string>)
    ensures forall i :: 0 <= i < |pages| ==> pages[i] == PageJpg(ch, i + 1) && pages[i] in files
    ensures PageJpg(ch, |pages| + 1) !in files
    ensures files' == if pages != [] then files + {ChapterPdf(ch)} else files
  {
    var page := 1;
    pages := [];
    ghost var seen: set<string> := {};
    while PageJpg(ch, page) in files
      invariant page == |pages| + 1
      invariant PagesOnDisk(ch, pages, files)
      invariant seen == JpgsUpTo(ch, page - 1) && seen <= files
      decreases |files - seen|
    {
      SeenStep(ch, page, files, seen);
      PagesOnDiskStep(ch, pages, files);
      pages := pages + [PageJpg(ch, page)];
      seen := seen + {PageJpg(ch, page)};
      page := page + 1;
    }
    files' := if pages != [] then files + {ChapterPdf(ch)} else files;
  }

  /** The pages bound so far: Page_1.jpg, Page_2.jpg, ..., all on disk. */
  ghost predicate PagesOnDisk(ch: string, pages: seq<string>, files: set<string>) {
    forall i :: 0 <= i < |pages| ==> pages[i] == PageJpg(ch, i + 1) && pages[i] in files
  }

  lemma PagesOnDiskStep(ch: string, pages: seq<string>, files: set<string>)
    requires PagesOnDisk(ch, pages, files) && PageJpg(ch, |pages| + 1) in files
    ensures PagesOnDisk(ch, pages + [PageJpg(ch, |pages| + 1)], files)
  {
  }

  /** Binding one more page shrinks the part of the disk not yet seen. */
  lemma SeenStep(ch: string, page: nat, files: set<string>, seen: set<string>)
    requires page >= 1 && seen == JpgsUpTo(ch, page - 1) && seen <= files && PageJpg(ch, page) in files
    ensures seen + {PageJpg(ch, page)} == JpgsUpTo(ch, page) && seen + {PageJpg(ch, page)} <= files
    ensures |files - (seen + {PageJpg(ch, page)})| < |files - seen|
  {
    JpgsUpToMembers(ch, page - 1, page);
    assert files - (seen + {PageJpg(ch, page)}) < files - seen;
  }

  /** No page jpg of the chapter is on disk yet. */
  ghost predicate NoPagesYet(ch: string, files: set<string>) {
    forall q: nat :: PageJpg(ch, q) !in files
  }

  /** One chapter of `process_chapters`: download, then bind. The PDF always
      holds at least the pages just downloaded; on a disk without older page
      files it holds exactly those, and is written exactly when one was. */
  method ProcessChapter(ch: string, responses: seq<Response>, files: set<string>)
    returns (saved: nat, pages: seq<string>, files': set<string>)
    ensures saved == AvailablePrefix(KeptPages(responses))
    ensures |pages| >= saved
    ensures forall i :: 0 <= i < |pages| ==> pages[i] == PageJpg(ch, i + 1)
    ensures NoPagesYet(ch, files) ==> |pages| == saved
    ensures pages != [] <==> PageJpg(ch, 1) in AfterDownload(ch, responses, files)
    ensures var downloaded := AfterDownload(ch, responses, files);
      files' == if pages != [] then downloaded + {ChapterPdf(ch)} else downloaded
    ensures files' == ChapterDisk(ch, responses, files)
  {
    var downloaded;
    saved, downloaded := DownloadPages(ch, responses, files);
    assert downloaded == AfterDownload(ch, responses, files);
    forall q: nat | 1 <= q <= saved ensures PageJpg(ch, q) in downloaded {
      JpgsUpToMembers(ch, saved, q);
    }
    pages, files' := ConvertImagesToPdf(ch, downloaded);
    if pages != [] {
      assert pages[0] == PageJpg(ch, 1) && pages[0] in downloaded;
    }
    if NoPagesYet(ch, files) {
      forall q: nat | PageJpg(ch, q) in downloaded ensures 1 <= q <= saved {
        JpgsUpToMembers(ch, saved, q);
        JpgIsNotWebp(ch, q, ch, saved + 1);
      }
      if pages != [] {
        assert pages[|pages| - 1] == PageJpg(ch, |pages|) && pages[|pages| - 1] in downloaded;
      }
    }
  }

  /** The disk one chapter of `process_chapters` leaves: the downloaded
      pages, and the chapter PDF when a first page jpg is there to bind. */
  function ChapterDisk(ch: string, responses: seq<Response>, files: set<string>): set<string> {
    var downloaded := AfterDownload(ch, responses, files);
    if PageJpg(ch, 1) in downloaded then downloaded + {ChapterPdf(ch)} else downloaded
  }

  /** A chapter whose first page was kept ends with its chapter PDF. */
  lemma ChapterDiskHasPdf(ch: string, responses: seq<Response>, files: set<string>)
    requires AvailablePrefix(KeptPages(responses)) >= 1
    ensures ChapterPdf(ch) in ChapterDisk(ch, responses, files)
  {
    JpgsUpToMembers(ch, AvailablePrefix(KeptPages(responses)), 1);
  }

  lemma PdfIsNotWebp(c: string, ch: string, q: nat)
    ensures ChapterPdf(c) != PageWebp(ch, q)
  {
    var d, w := ChapterPdf(c), PageWebp(ch, q);
    assert d[|d| - 1] == 'f';
    assert w[|w| - 1] == 'p';
  }

  lemma {:induction false} PdfNotInWebps(c: string, ch: string, k: nat)
    ensures ChapterPdf(c) !in WebpsUpTo(ch, k)
  {
    if k > 0 {
      PdfNotInWebps(c, ch, k - 1);
      PdfIsNotWebp(c, ch, k);
    }
  }

  /** Processing another chapter removes only webps, so a chapter PDF already
      on disk stays there. */
  lemma PdfSurvives(c: string, ch: string, responses: seq<Response>, files: set<string>)
    requires ChapterPdf(c) in files
    ensures ChapterPdf(c) in ChapterDisk(ch, responses, files)
  {
    PdfNotInWebps(c, ch, AvailablePrefix(KeptPages(responses)));
  }

  /** The disk after processing the chapters in order. */
  function ChaptersDisk(chapters: seq<string>, server: string -> seq<Response>, files: set<string>): set<string>
    decreases |chapters|
  {
    if chapters == [] then files
    else
      var last := chapters[|chapters| - 1];
      ChapterDisk(last, server(last), ChaptersDisk(chapters[..|chapters| - 1], server, files))
  }

  /** One more chapter: its disk effect on the disk the earlier ones left. */
  lemma ChaptersDiskSnoc(chapters: seq<string>, ch: string, server: string -> seq<Response>, files: set<string>)
    ensures ChaptersDisk(chapters + [ch], server, files) == ChapterDisk(ch, server(ch), ChaptersDisk(chapters, server, files))
  {
    assert (chapters + [ch])[..|chapters|] == chapters;
  }

  /** After `process_chapters`, every chapter whose first page was kept has
      its chapter PDF, whatever later chapters did. */
  lemma {:induction false} ChaptersDiskHasPdfs(chapters: seq<string>, server: string -> seq<Response>,
                                               files: set<string>, i: int)
    requires 0 <= i < |chapters| && AvailablePrefix(KeptPages(server(chapters[i]))) >= 1
    ensures ChapterPdf(chapters[i]) in ChaptersDisk(chapters, server, files)
    decreases |chapters|
  {
    var n := |chapters|;
    var last, front := chapters[n - 1], chapters[..n - 1];
    if i == n - 1 {
      ChapterDiskHasPdf(last, server(last), ChaptersDisk(front, server, files));
    } else {
      assert front[i] == chapters[i];
      ChaptersDiskHasPdfs(front, server, files, i);
      PdfSurvives(chapters[i], last, server(last), ChaptersDisk(front, server, files));
    }
  }

  /** `[ch for volume in VOLUMES.values() for ch in volume]`. */
  function AllChapters(volumes: seq<(string, seq<string>)>): seq<string> {
    Flatten(Map(volumes, (v: (string, seq<string>)) => v.1))
  }

  /** How many pages each chapter keeps, chapter by chapter. */
  function SavedCounts(chapters: seq<string>, server: string -> seq<Response>): (r: seq<nat>)
    ensures |r| == |chapters|
    ensures forall i :: 0 <= i < |chapters| ==> r[i] == AvailablePrefix(KeptPages(server(chapters[i])))
    decreases |chapters|
  {
    if chapters == [] then []
    else SavedCounts(chapters[..|chapters| - 1], server) + [AvailablePrefix(KeptPages(server(chapters[|chapters| - 1])))]
  }

  /** `process_chapters`: every chapter, in volume-table order, is
      downloaded and bound; `server` gives each chapter's answers. */
  method ProcessChapters(volumes: seq<(string, seq<string>)>, server: string -> seq<Response>,
                         files: set<string>)
    returns (visited: seq<string>, saved: seq<nat>, files': set<string>)
    ensures visited == AllChapters(volumes)
    ensures |saved| == |visited|
    ensures forall i :: 0 <= i < |visited| ==> saved[i] == AvailablePrefix(KeptPages(server(visited[i])))
    ensures files' == ChaptersDisk(visited, server, files)
  {
    var all := AllChapters(volumes);
    visited, saved, files' := [], [], files;
    for i := 0 to |all|
      invariant visited == all[..i]
      invariant saved == SavedCounts(visited, server)
      invariant files' == ChaptersDisk(visited, server, files)
    {
      var k, pages;
      ChaptersDiskSnoc(visited, all[i], server, files);
      assert (visited + [all[i]])[..i] == visited;
      k, pages, files' := ProcessChapter(all[i], server(all[i]), files');
      visited := visited + [all[i]];
      saved := saved + [k];
    }
    TakeAll(all);
  }

  /** `create_cover_pdf`: no cover path when the cover jpeg is missing;
      otherwise the cover PDF is written and its path returned. */
  method CreateCoverPdf(volume: string, files: set<string>)
    returns (cover: Option<string>, files': set<string>)
    ensures cover == None <==> CoverJpeg(volume) !in files
    ensures cover != None ==> cover.value == CoverPdf(volume)
    ensures files' == if cover == None then files else files + {CoverPdf(volume)}
  {
    if CoverJpeg(volume) !in files {
      return None, files;
    }
    files' := files + {CoverPdf(volume)};
    cover := Some(CoverPdf(volume));
  }

  function PdfExists(files: set<string>): string -> bool {
    (ch: string) => ChapterPdf(ch) in files
  }

  /** The PDFs of the chapters that have one, in chapter order. */
  function ExistingPdfs(chapters: seq<string>, files: set<string>): seq<string> {
    Map(Filter(chapters, PdfExists(files)), ChapterPdf)
  }

  /** One more chapter adds its PDF exactly when it exists. */
  lemma ExistingPdfsSnoc(chapters: seq<string>, i: nat, files: set<string>)
    requires i < |chapters|
    ensures ExistingPdfs(chapters[..i + 1], files) == ExistingPdfs(chapters[..i], files) +
      (if ChapterPdf(chapters[i]) in files then [ChapterPdf(chapters[i])] else [])
  {
    FilterSnoc(chapters[..i], chapters[i], PdfExists(files));
    TakeSnoc(chapters, i);
    MapSnoc(Filter(chapters[..i], PdfExists(files)), chapters[i], ChapterPdf);
  }

  /** What `compile_volumes` appends for one volume: the cover when there is
      one, then the PDF of every chapter of the volume that exists, in
      volume order; missing chapters are skipped. */
  function VolumeMerge(volume: string, chapters: seq<string>, files: set<string>): seq<string> {
    (if CoverJpeg(volume) in files then [CoverPdf(volume)] else []) +
    ExistingPdfs(chapters, files)
  }

  /** The merge starts with the cover exactly when the cover jpeg exists,
      and every other entry is an existing chapter PDF of the volume. */
  lemma VolumeMergeShape(volume: string, chapters: seq<string>, files: set<string>)
    ensures var m := VolumeMerge(volume, chapters, files);
      (m != [] && m[0] == CoverPdf(volume) <==> CoverJpeg(volume) in files) &&
      forall i :: (if CoverJpeg(volume) in files then 1 else 0) <= i < |m| ==>
        m[i] in files && exists c :: c in chapters && m[i] == ChapterPdf(c)
  {
    var m := VolumeMerge(volume, chapters, files);
    var kept := Filter(chapters, PdfExists(files));
    FilterMembers(chapters, PdfExists(files));
    assert ExistingPdfs(chapters, files) == Map(kept, ChapterPdf);
    var off := if CoverJpeg(volume) in files then 1 else 0;
    forall i | off <= i < |m|
      ensures m[i] in files && exists c :: c in chapters && m[i] == ChapterPdf(c)
    {
      assert m[i] == ChapterPdf(kept[i - off]);
      assert kept[i - off] in kept;
    }
    if CoverJpeg(volume) !in files && m != [] {
      assert kept[0] in kept;
      ChapterPdfIsNotCoverOrVolume(kept[0], volume);
    }
  }

  /** Two disks that agree on the cover jpeg and the chapter PDFs give the
      same merge. */
  lemma VolumeMergeFrame(volume: string, chapters: seq<string>, f1: set<string>, f2: set<string>)
    requires CoverJpeg(volume) in f1 <==> CoverJpeg(volume) in f2
    requires forall c :: ChapterPdf(c) in f1 <==> ChapterPdf(c) in f2
    ensures VolumeMerge(volume, chapters, f1) == VolumeMerge(volume, chapters, f2)
  {
    FilterCongruent(chapters, PdfExists(f1), PdfExists(f2));
  }

  /** One volume of `compile_volumes`; the volume PDF is written when
      something was appended (each appended PDF has at least one page). */
  method CompileVolume(volume: string, chapters: seq<string>, files: set<string>)
    returns (merged: seq<string>, files': set<string>)
    ensures merged == VolumeMerge(volume, chapters, files)
    ensures files' == files + (if CoverJpeg(volume) in files then {CoverPdf(volume)} else {})
                            + (if merged != [] then {VolumePdf(volume)} else {})
  {
    var cover, withCover := CreateCoverPdf(volume, files);
    merged := if cover.Some? then [cover.value] else [];
    forall c ensures PdfExists(withCover)(c) == PdfExists(files)(c) {
      ChapterPdfIsNotCoverOrVolume(c, volume);
    }
    FilterCongruent(chapters, PdfExists(withCover), PdfExists(files));
    merged := AppendExisting(merged, chapters, withCover);
    files' := if merged != [] then withCover + {VolumePdf(volume)} else withCover;
  }

  /** The chapter loop of `compile_volumes`: each chapter PDF that exists is
      appended, in chapter order. */
  method AppendExisting(merger: seq<string>, chapters: seq<string>, files: set<string>)
    returns (merged: seq<string>)
    ensures merged == merger + ExistingPdfs(chapters, files)
  {
    merged := merger;
    for i := 0 to |chapters|
      invariant merged == merger + ExistingPdfs(chapters[..i], files)
    {
      var pdf := ChapterPdf(chapters[i]);
      ExistingPdfsSnoc(chapters, i, files);
      if pdf in files {
        AppendAssoc(merger, ExistingPdfs(chapters[..i], files), [pdf]);
        merged := merged + [pdf];
      } else {
        assert ExistingPdfs(chapters[..i], files) + [] == ExistingPdfs(chapters[..i], files);
      }
    }
    TakeAll(chapters);
  }

  /** Two disks agree on every chapter PDF and every cover jpeg. */
  ghost predicate SameInputs(f1: set<string>, f2: set<string>) {
    (forall c :: ChapterPdf(c) in f1 <==> ChapterPdf(c) in f2) &&
    (forall v :: CoverJpeg(v) in f1 <==> CoverJpeg(v) in f2)
  }

  /** Compiling a volume writes only its cover and volume PDFs, so what
      later volumes read is unchanged. */
  lemma VolumeKeepsInputs(volume: string, f: set<string>, next: set<string>, base: set<string>)
    requires SameInputs(f, base)
    requires f <= next && forall x :: x in next ==> x in f || x == CoverPdf(volume) || x == VolumePdf(volume)
    ensures SameInputs(next, base)
  {
    forall c ensures ChapterPdf(c) in next <==> ChapterPdf(c) in f {
      ChapterPdfIsNotCoverOrVolume(c, volume);
    }
    forall v ensures CoverJpeg(v) in next <==> CoverJpeg(v) in f {
      CoverJpegIsNotPdf(v, volume);
    }
  }

  /** `compile_volumes`: every volume of the table in turn. Writing one
      volume never changes what a later one finds. */
  method CompileVolumes(volumes: seq<(string, seq<string>)>, files: set<string>)
    returns (merged: seq<seq<string>>, files': set<string>)
    ensures |merged| == |volumes|
    ensures forall i :: 0 <= i < |volumes| ==> merged[i] == VolumeMerge(volumes[i].0, volumes[i].1, files)
  {
    merged, files' := [], files;
    for i := 0 to |volumes|
      invariant |merged| == i
      invariant forall j :: 0 <= j < i ==> merged[j] == VolumeMerge(volumes[j].0, volumes[j].1, files)
      invariant SameInputs(files', files)
    {
      var (name, chapters) := volumes[i];
      VolumeMergeFrame(name, chapters, files', files);
      var m, next := CompileVolume(name, chapters, files');
      VolumeKeepsInputs(name, files', next, files);
      merged, files' := merged + [m], next;
    }
  }
}
