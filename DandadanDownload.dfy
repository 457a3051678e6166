/** download.py: download Dandadan chapters page by page from a URL
    template and make one PDF per chapter. For each chapter of the inclusive
    range, pages 1, 2, ... are requested until one answers 404 or fails;
    each page that arrives is written as `Page_PP.jpg`, and the chapter PDF
    is made from them when there is at least one.

    The network is an oracle giving, per chapter, the responses to pages
    1, 2, ...; every page past the recorded ones answers 404. The disk is
    the set of existing files. */
module DandadanDownload {
  import opened Lists
  import opened Numerals
  import opened Strings
  import opened Probe
  import DandadanVolume

  /** `BASE_URL`, spelled as the part before the chapter placeholder, the
      placeholder, and the page file name. */
  const BaseUrl := UrlHead + ("xxx" + "/00.jpg")
  const ChapterStart := 176
  const ChapterEnd := 177
  const OutputDir := "/Users/adil/Downloads/DanDaDanChapter"

  /** The part of `BASE_URL` before the chapter placeholder. */
  const UrlHead := "https://cdn." + "black-clover.org" + "/file/sugois/" + "Dandadan/Chapter-"

  /** What `requests.get` gives: a status code, or an exception. */
  datatype Response = Status(code: int) | Raised

  /** The response to page `page` (from 1); unrecorded pages answer 404. */
  function ResponseAt(rs: seq<Response>, page: int): Response {
    if 1 <= page <= |rs| then rs[page - 1] else Status(404)
  }

  /** A page is written when it is not a 404, nothing was raised, and
      `raise_for_status` lets it through (no 4xx or 5xx code). */
  predicate Written(r: Response) {
    r.Status? && r.code != 404 && !(400 <= r.code < 600)
  }

  function WrittenOf(r: Response): bool {
    Written(r)
  }

  /** The number of pages a chapter gets: the leading run of written pages. */
  function PageCount(rs: seq<Response>): nat {
    AvailablePrefix(Map(rs, WrittenOf))
  }

  lemma AnswerIsWritten(rs: seq<Response>, page: int)
    requires page >= 1
    ensures Answer(Map(rs, WrittenOf), page) == Written(ResponseAt(rs, page))
  {
  }

  /** `base_url.replace("xxx", str(chapter)).replace("00.jpg", f"{page}.jpg")`. */
  function PageUrl(base: string, chapter: int, page: int): string {
    ReplaceAll(ReplaceAll(base, "xxx", IntToString(chapter)), "00.jpg", IntToString(page) + ".jpg")
  }

  /** With the script's template, the URL of a page is the chapter folder
      then the bare page number: the placeholder and the file name each
      occur once, and the chapter number cannot form a second "00.jpg". */
  lemma PageUrlOfBase(chapter: int, page: int)
    ensures PageUrl(BaseUrl, chapter, page) == UrlHead + IntToString(chapter) + "/" + IntToString(page) + ".jpg"
  {
    var c, p := IntToString(chapter), IntToString(page);
    HeadHasNoPlaceholder();
    ChapterReplaced(UrlHead, c);
    IntToStringChars(chapter);
    PageReplaced(UrlHead, c, p);
    RegroupTail(UrlHead, c, "/", p, ".jpg");
  }

  /** The chapter number takes the place of the placeholder. */
  lemma ChapterReplaced(head: string, c: string)
    requires 'x' !in head
    ensures ReplaceAll(head + ("xxx" + "/00.jpg"), "xxx", c) == head + ((c + "/") + "00.jpg")
  {
    TemplateTail();
    Placeholder(head, "xxx", "/00.jpg", c);
    AppendAssoc(c, "/", "00.jpg");
  }

  lemma TemplateTail()
    ensures "xxx"[0] == 'x' && 'x' !in "/00.jpg" && "/00.jpg" == "/" + "00.jpg"
  {
  }

  /** A placeholder that occurs once, after a head and before a tail that
      do not hold its first character, is replaced exactly there. */
  lemma Placeholder(head: string, ph: string, tail: string, c: string)
    requires ph != [] && ph[0] !in head && ph[0] !in tail
    ensures ReplaceAll(head + (ph + tail), ph, c) == head + (c + tail)
  {
    ReplaceSkipNoHead(head, ph + tail, ph, c);
    ReplaceAtFront(tail, ph, c);
    ReplaceAbsent(tail, ph, c);
  }

  /** The page number takes the place of the file name. */
  lemma PageReplaced(head: string, c: string, p: string)
    requires '0' !in head
    requires forall i :: 0 <= i < |c| ==> IsDigit(c[i]) || c[i] == '-'
    ensures ReplaceAll(head + ((c + "/") + "00.jpg"), "00.jpg", p + ".jpg") == head + ((c + "/") + (p + ".jpg"))
  {
    ReplaceSkipNoHead(head, (c + "/") + "00.jpg", "00.jpg", p + ".jpg");
    NumberThenSlash(c, p);
  }

  lemma HeadHasNoPlaceholder()
    ensures 'x' !in UrlHead && '0' !in UrlHead
  {
    NoneOf("https://cdn.");
    NoneOf("black-clover.org");
    NoneOf("/file/sugois/");
    NoneOf("Dandadan/Chapter-");
  }

  lemma NoneOf(s: string)
    requires forall i :: 0 <= i < |s| ==> s[i] != 'x' && s[i] != '0'
    ensures 'x' !in s && '0' !in s
  {
  }

  /** "00.jpg" does not start inside a number followed by "/". */
  lemma NumberThenSlash(c: string, p: string)
    requires forall i :: 0 <= i < |c| ==> IsDigit(c[i]) || c[i] == '-'
    ensures ReplaceAll((c + "/") + "00.jpg", "00.jpg", p + ".jpg") == (c + "/") + (p + ".jpg")
  {
    var a := c + "/";
    forall i | 0 <= i < |a| ensures !("00.jpg" <= (a + "00.jpg")[i..]) {
      NoMatchAt(c, i);
    }
    ReplaceSkip(a, "00.jpg", "00.jpg", p + ".jpg");
    assert "00.jpg" == "00.jpg" + [];
    ReplaceAtFront([], "00.jpg", p + ".jpg");
  }

  lemma NoMatchAt(c: string, i: nat)
    requires forall i :: 0 <= i < |c| ==> IsDigit(c[i]) || c[i] == '-'
    requires i <= |c|
    ensures !("00.jpg" <= ((c + "/") + "00.jpg")[i..])
  {
    var s := (c + "/") + "00.jpg";
    if i + 2 < |c| {
      assert s[i + 2] == c[i + 2];
    } else if i + 2 == |c| {
      assert s[i + 2] == '/';
    } else if i + 1 == |c| {
      assert s[i + 1] == '/';
    } else {
      assert s[i] == '/';
    }
  }

  /** Distinct pages of a chapter are requested at distinct URLs. */
  lemma PageUrlInjective(chapter: int, p: int, q: int)
    ensures PageUrl(BaseUrl, chapter, p) == PageUrl(BaseUrl, chapter, q) ==> p == q
  {
    PageUrlOfBase(chapter, p);
    PageUrlOfBase(chapter, q);
    if PageUrl(BaseUrl, chapter, p) == PageUrl(BaseUrl, chapter, q) {
      MiddleEqual(UrlHead + IntToString(chapter) + "/", IntToString(p), IntToString(q), ".jpg");
      IntToStringInjective(p, q);
    }
  }

  /** `os.path.join(output_dir, f"Chapter_{chapter}")`. */
  function ChapterFolder(out: string, chapter: int): string {
    out + "/Chapter_" + IntToString(chapter)
  }

  /** `os.path.join(chapter_folder, f"Page_{page:02d}.jpg")`. */
  function PageFile(out: string, chapter: int, page: int): string {
    ChapterFolder(out, chapter) + "/Page_" + Pad(page, 2) + ".jpg"
  }

  /** `os.path.join(output_dir, f"Dandadan_Chapter_{chapter}.pdf")`. */
  function ChapterPdf(out: string, chapter: int): string {
    out + "/Dandadan_Chapter_" + IntToString(chapter) + ".pdf"
  }

  /** Distinct pages never overwrite each other's file. */
  lemma PageFileInjective(out: string, chapter: int, p: int, q: int)
    ensures PageFile(out, chapter, p) == PageFile(out, chapter, q) ==> p == q
  {
    if PageFile(out, chapter, p) == PageFile(out, chapter, q) {
      MiddleEqual(ChapterFolder(out, chapter) + "/Page_", Pad(p, 2), Pad(q, 2), ".jpg");
      PadInjective(p, q, 2);
    }
  }

  /** Page 7 is written as `Page_07.jpg`. */
  lemma PageFileExample()
    ensures PageFile(OutputDir, 176, 7) == OutputDir + "/Chapter_176/Page_07.jpg"
  {
    PadShortExamples();
    ChapterNumber176();
  }

  /** Page 7 is fetched as `7.jpg`, without padding. */
  lemma PageUrlExample()
    ensures PageUrl(BaseUrl, 176, 7) == UrlHead + "176/7.jpg"
  {
    PageUrlOfBase(176, 7);
    ChapterNumber176();
    assert NatToString(7) == "7";
  }

  lemma ChapterNumber176()
    ensures IntToString(176) == "176"
  {
    assert NatToString(17) == "17";
  }

  /** The page files of pages 1..k. */
  function PageFiles(out: string, chapter: int, k: nat): set<string> {
    if k == 0 then {} else PageFiles(out, chapter, k - 1) + {PageFile(out, chapter, k)}
  }

  /** The URLs of pages 1..n, in order. */
  ghost predicate Requested(base: string, chapter: int, n: nat, requested: seq<string>) {
    |requested| == n && forall i :: 0 <= i < n ==> requested[i] == PageUrl(base, chapter, i + 1)
  }

  /** The files of pages 1..n, in order. */
  ghost predicate Images(out: string, chapter: int, n: nat, images: seq<string>) {
    |images| == n && forall i :: 0 <= i < n ==> images[i] == PageFile(out, chapter, i + 1)
  }

  /** The files of pages 1..n, in order, added to the disk. */
  ghost predicate Saved(out: string, chapter: int, n: nat, images: seq<string>, files: set<string>, files': set<string>) {
    Images(out, chapter, n, images) && files' == files + PageFiles(out, chapter, n)
  }

  lemma ImagesStep(out: string, chapter: int, n: nat, images: seq<string>)
    requires Images(out, chapter, n, images)
    ensures Images(out, chapter, n + 1, images + [PageFile(out, chapter, n + 1)])
  {
    var next := images + [PageFile(out, chapter, n + 1)];
    forall i | 0 <= i < n + 1
      ensures next[i] == PageFile(out, chapter, i + 1)
    {
      if i < n {
        assert next[i] == images[i];
      }
    }
  }

  lemma RequestedStep(base: string, chapter: int, n: nat, requested: seq<string>)
    requires Requested(base, chapter, n, requested)
    ensures Requested(base, chapter, n + 1, requested + [PageUrl(base, chapter, n + 1)])
  {
    var next := requested + [PageUrl(base, chapter, n + 1)];
    forall i | 0 <= i < n + 1
      ensures next[i] == PageUrl(base, chapter, i + 1)
    {
      if i < n {
        assert next[i] == requested[i];
      }
    }
  }

  lemma SavedStep(out: string, chapter: int, n: nat, images: seq<string>, files: set<string>, files': set<string>)
    requires Saved(out, chapter, n, images, files, files')
    ensures Saved(out, chapter, n + 1, images + [PageFile(out, chapter, n + 1)], files, files' + {PageFile(out, chapter, n + 1)})
  {
    ImagesStep(out, chapter, n, images);
  }

  /** Whether the response stops the page loop: a 404, an exception, or a
      code `raise_for_status` rejects. */
  predicate Stops(r: Response) {
    r == Status(404) || r.Raised? || 400 <= r.code < 600
  }

  /** The `while True` page loop: pages are requested from 1 on; a 404 or
      a failure ends the loop, and every other page is written and counted.
      So pages 1..k+1 are requested and pages 1..k written, k being the
      leading run of written pages. */
  method FetchPages(base: string, chapter: int, out: string, rs: seq<Response>, files: set<string>)
    returns (requested: seq<string>, images: seq<string>, files': set<string>)
    ensures Requested(base, chapter, PageCount(rs) + 1, requested)
    ensures Saved(out, chapter, PageCount(rs), images, files, files')
  {
    ghost var ok := Map(rs, WrittenOf);
    requested, images, files' := [], [], files;
    var page := 1;
    while true
      invariant 1 <= page <= |rs| + 1
      invariant AvailablePrefix(ok) >= page - 1
      invariant Requested(base, chapter, page - 1, requested)
      invariant Saved(out, chapter, page - 1, images, files, files')
      decreases |rs| + 1 - page
    {
      var url := PageUrl(base, chapter, page);
      var response := ResponseAt(rs, page);
      AnswerIsWritten(rs, page);
      RequestedStep(base, chapter, page - 1, requested);
      requested := requested + [url];
      if Stops(response) {
        AvailablePrefixStops(ok, page);
        return;
      }
      AvailablePrefixNext(ok, page);
      SavedStep(out, chapter, page - 1, images, files, files');
      files' := files' + {PageFile(out, chapter, page)};
      images := images + [PageFile(out, chapter, page)];
      page := page + 1;
    }
  }

  /** Everything a chapter writes: its pages, and its PDF when it has any. */
  function ChapterOutputs(out: string, chapter: int, rs: seq<Response>): set<string> {
    PageFiles(out, chapter, PageCount(rs)) + (if PageCount(rs) > 0 then {ChapterPdf(out, chapter)} else {})
  }

  /** One chapter of `download_chapter_as_pdf`: the pages, then the PDF of
      the written pages, in page order, when there is at least one. */
  method DownloadChapter(base: string, chapter: int, out: string, rs: seq<Response>, files: set<string>)
    returns (requested: seq<string>, images: seq<string>, pdf: Option<string>, files': set<string>)
    ensures Requested(base, chapter, PageCount(rs) + 1, requested)
    ensures |images| == PageCount(rs) && forall i :: 0 <= i < |images| ==> images[i] == PageFile(out, chapter, i + 1)
    ensures pdf == if PageCount(rs) > 0 then Some(ChapterPdf(out, chapter)) else None
    ensures files' == files + ChapterOutputs(out, chapter, rs)
  {
    requested, images, files' := FetchPages(base, chapter, out, rs, files);
    if images != [] {
      pdf := Some(ChapterPdf(out, chapter));
      files' := files' + {ChapterPdf(out, chapter)};
    } else {
      pdf := None;
    }
  }

  /** The PDF a chapter gets, if any. */
  function PdfOf(out: string, net: int -> seq<Response>): int -> Option<string> {
    c => if PageCount(net(c)) > 0 then Some(ChapterPdf(out, c)) else None
  }

  /** The PDF of each chapter of a list, in order. */
  function Pdfs(out: string, chapters: seq<int>, net: int -> seq<Response>): seq<Option<string>> {
    Map(chapters, PdfOf(out, net))
  }

  /** Everything the chapters of a list write. */
  function Outputs(out: string, chapters: seq<int>, net: int -> seq<Response>): set<string> {
    set c, x | c in chapters && x in ChapterOutputs(out, c, net(c)) :: x
  }

  lemma OutputsSnoc(out: string, chapters: seq<int>, i: nat, net: int -> seq<Response>)
    requires i < |chapters|
    ensures Outputs(out, chapters[..i + 1], net) == Outputs(out, chapters[..i], net) + ChapterOutputs(out, chapters[i], net(chapters[i]))
  {
    TakeSnoc(chapters, i);
  }

  lemma PdfsSnoc(out: string, chapters: seq<int>, i: nat, net: int -> seq<Response>)
    requires i < |chapters|
    ensures Pdfs(out, chapters[..i + 1], net) == Pdfs(out, chapters[..i], net) + [PdfOf(out, net)(chapters[i])]
  {
    TakeSnoc(chapters, i);
    MapSnoc(chapters[..i], chapters[i], PdfOf(out, net));
  }

  /** `download_chapter_as_pdf`: the chapters `chapter_start` to
      `chapter_end`, both included, in increasing order. */
  method DownloadChapterAsPdf(base: string, start: int, end: int, out: string, net: int -> seq<Response>, files: set<string>)
    returns (pdfs: seq<Option<string>>, files': set<string>)
    ensures pdfs == Pdfs(out, Range(start, end + 1), net)
    ensures files' == files + Outputs(out, Range(start, end + 1), net)
  {
    var chapters := Range(start, end + 1);
    pdfs, files' := [], files;
    for i := 0 to |chapters|
      invariant pdfs == Pdfs(out, chapters[..i], net)
      invariant files' == files + Outputs(out, chapters[..i], net)
    {
      var chapter := chapters[i];
      var requested, images, pdf;
      requested, images, pdf, files' := DownloadChapter(base, chapter, out, net(chapter), files');
      OutputsSnoc(out, chapters, i, net);
      PdfsSnoc(out, chapters, i, net);
      pdfs := pdfs + [pdf];
    }
    TakeAll(chapters);
  }

  /** One entry per chapter of the range, in order: the chapter's PDF when
      it got at least one page, and nothing otherwise. */
  lemma PdfsOfRange(out: string, start: int, end: int, net: int -> seq<Response>)
    ensures var r := Pdfs(out, Range(start, end + 1), net);
      |r| == (if start <= end then end - start + 1 else 0) &&
      forall i :: 0 <= i < |r| ==> r[i] == if PageCount(net(start + i)) > 0 then Some(ChapterPdf(out, start + i)) else None
  {
  }

  /** The script's entry point: chapters 176 and 177 into the chapter folder. */
  method Run(net: int -> seq<Response>, files: set<string>)
    returns (pdfs: seq<Option<string>>, files': set<string>)
    ensures |pdfs| == 2
    ensures pdfs[0] == if PageCount(net(176)) > 0 then Some(ChapterPdf(OutputDir, 176)) else None
    ensures pdfs[1] == if PageCount(net(177)) > 0 then Some(ChapterPdf(OutputDir, 177)) else None
    ensures files' == files + Outputs(OutputDir, Range(176, 178), net)
  {
    pdfs, files' := DownloadChapterAsPdf(BaseUrl, ChapterStart, ChapterEnd, OutputDir, net, files);
    PdfsOfRange(OutputDir, ChapterStart, ChapterEnd, net);
  }

  /** The chapter PDFs this script writes land in the folder the Dandadan
      volume merger lists ... */
  lemma PdfsInVolumeMergerFolder(chapter: int)
    ensures ChapterPdf(OutputDir, chapter) == DandadanVolume.InputPath(DownloadedName(chapter))
  {
    assert DandadanVolume.InputDir == OutputDir;
    JoinName(OutputDir, IntToString(chapter));
  }

  lemma JoinName(dir: string, n: string)
    ensures dir + "/Dandadan_Chapter_" + n + ".pdf" == dir + "/" + ("Dandadan_Chapter_" + n + ".pdf")
  {
    assert "/Dandadan_Chapter_" == "/" + "Dandadan_Chapter_";
  }

  /** ... but under a name none of its chapter patterns matches, so the
      merger never picks them up as they are. */
  lemma PdfsNotFoundByVolumeMerger(chapter: int, c: int)
    ensures !DandadanVolume.Matches(c, DownloadedName(chapter))
  {
    assert DandadanVolume.Pattern(c)[8] == ' ';
    assert DownloadedName(chapter)[8] == '_';
  }

  function DownloadedName(chapter: int): string {
    "Dandadan_Chapter_" + IntToString(chapter) + ".pdf"
  }
}
