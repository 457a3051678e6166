/** HxH/main.py: scrape Hunter x Hunter chapters 381 to 410. Each chapter
    page's `img` sources are filtered down to the two image hosts, the
    images are saved as `1.jpg`, `2.jpg`, ... by list position, and at the
    end every saved image is put, in path order, into one PDF.

    The site is an oracle giving, for a chapter, the page's status code and
    the `src` attribute of each `img` tag in document order (None when the
    tag has none); whether the download of image `idx` of a chapter succeeds
    is an oracle too. The disk is the set of existing paths, and the order in
    which the file system lists a set of paths is a given function. */
module HunterXHunter {
  import opened Lists
  import opened Numerals
  import opened Strings

  const BaseUrl := "https://read-hxh.com/manga/hunter-x-hunter-chapter-"
  const ValidImageSources: seq<string> := ["laiond.com/images", "blogger.googleusercontent.com/img/b/"]
  const OutputPdf := "HxH_383-410.pdf"

  /** The chapters `main` visits: `range(381, 411)`. */
  const Chapters := Range(381, 411)

  /** A fetched chapter page: its status and its `img` sources. */
  datatype Page = Page(status: int, srcs: seq<Option<string>>)

  /** `f"{BASE_URL}{chapter_number}/"`. */
  function ChapterUrl(chapter: int): string {
    BaseUrl + IntToString(chapter) + "/"
  }

  /** `[img.get('src') for img in ... if img.get('src')]`: the sources that
      are present and non-empty, in document order. */
  function Present(srcs: seq<Option<string>>): (r: seq<string>)
    ensures |r| <= |srcs|
  {
    if srcs == [] then []
    else (if srcs[0].Some? && srcs[0].value != "" then [srcs[0].value] else []) + Present(srcs[1..])
  }

  function SomeOf(s: string): Option<string> {
    Some(s)
  }

  /** A source is kept exactly when some tag carries it and it is non-empty,
      and the kept sources are the tags' sources in document order. */
  lemma {:induction false} PresentSpec(srcs: seq<Option<string>>)
    ensures forall u :: u in Present(srcs) <==> Some(u) in srcs && u != ""
    ensures IsSubsequence(Map(Present(srcs), SomeOf), srcs)
  {
    if srcs != [] {
      PresentSpec(srcs[1..]);
      var rest := Map(Present(srcs[1..]), SomeOf);
      assert srcs == [srcs[0]] + srcs[1..];
      if srcs[0].Some? && srcs[0].value != "" {
        assert Present(srcs) == [srcs[0].value] + Present(srcs[1..]);
        MapSnocFront(srcs[0].value, Present(srcs[1..]));
        assert Map(Present(srcs), SomeOf) == [srcs[0]] + rest;
        assert (([srcs[0]] + rest)[1..]) == rest;
      } else {
        assert Present(srcs) == Present(srcs[1..]);
        SubsequenceSkip(rest, srcs[1..], srcs[0]);
      }
    }
  }

  lemma MapSnocFront(x: string, s: seq<string>)
    ensures Map([x] + s, SomeOf) == [SomeOf(x)] + Map(s, SomeOf)
  {
  }

  /** `any(source in url for source in VALID_IMAGE_SOURCES)`. */
  predicate IsValidUrl(url: string) {
    exists i :: 0 <= i < |ValidImageSources| && Contains(url, ValidImageSources[i])
  }

  /** `get_image_urls`: nothing unless the page came back with status 200;
      then the present sources that name one of the image hosts. */
  function GetImageUrls(page: Page): (r: seq<string>)
    ensures page.status != 200 ==> r == []
  {
    if page.status != 200 then [] else Filter(Present(page.srcs), IsValidUrl)
  }

  /** Every returned URL is non-empty and names an image host; with status
      200 every such source of the page is returned; and the URLs come in
      the page's document order. */
  lemma GetImageUrlsSpec(page: Page)
    ensures forall u :: u in GetImageUrls(page) ==> u != "" && IsValidUrl(u)
    ensures page.status == 200 ==>
      forall u :: u in GetImageUrls(page) <==> Some(u) in page.srcs && u != "" && IsValidUrl(u)
    ensures IsSubsequence(Map(GetImageUrls(page), SomeOf), page.srcs)
  {
    PresentSpec(page.srcs);
    if page.status == 200 {
      var present := Present(page.srcs);
      FilterMembers(present, IsValidUrl);
      FilterIsSubsequence(present, IsValidUrl);
      MapSubsequence(GetImageUrls(page), present, SomeOf);
      SubsequenceTransitive(Map(GetImageUrls(page), SomeOf), Map(present, SomeOf), page.srcs);
    }
  }

  /** A page whose only image is on neither host yields nothing, and one on
      the first host is kept. */
  lemma GetImageUrlsExamples()
    ensures GetImageUrls(Page(200, [Some("https://laiond.com/images/1.jpg")])) == ["https://laiond.com/images/1.jpg"]
    ensures GetImageUrls(Page(200, [None, Some("")])) == []
    ensures GetImageUrls(Page(404, [Some("https://laiond.com/images/1.jpg")])) == []
  {
    var u := "https://laiond.com/images/1.jpg";
    assert ValidImageSources[0] <= u[8..];
    assert Contains(u, ValidImageSources[0]);
    assert IsValidUrl(u);
    assert Present([Some(u)]) == [u];
    assert Present([None, Some("")]) == [];
  }

  /** `f"HxH/Chapter_{chapter}"`. */
  function SaveFolder(chapter: int): string {
    "HxH/Chapter_" + IntToString(chapter)
  }

  /** `os.path.join(save_folder, f"{idx}.jpg")`. */
  function ImagePath(chapter: int, idx: int): string {
    SaveFolder(chapter) + "/" + IntToString(idx) + ".jpg"
  }

  /** Distinct positions are saved under distinct names. */
  lemma ImagePathInjective(chapter: int, i: int, j: int)
    ensures ImagePath(chapter, i) == ImagePath(chapter, j) ==> i == j
  {
    if ImagePath(chapter, i) == ImagePath(chapter, j) {
      MiddleEqual(SaveFolder(chapter) + "/", IntToString(i), IntToString(j), ".jpg");
      IntToStringInjective(i, j);
    }
  }

  /** Whether the download of image `idx` of the chapter succeeds. */
  function Good(chapter: int, ok: (int, int) -> bool): int -> bool {
    idx => ok(chapter, idx)
  }

  function NameOf(chapter: int): int -> string {
    idx => ImagePath(chapter, idx)
  }

  /** The positions 1..n whose download succeeds. */
  function Saved(chapter: int, n: nat, ok: (int, int) -> bool): seq<int> {
    Filter(Range(1, n + 1), Good(chapter, ok))
  }

  /** The files written for positions 1..n, in order. */
  function Names(chapter: int, n: nat, ok: (int, int) -> bool): seq<string> {
    Map(Saved(chapter, n, ok), NameOf(chapter))
  }

  /** The paths listed in `s`, as a set. */
  function Elems(s: seq<string>): set<string> {
    set x | x in s
  }

  lemma ElemsSnoc(s: seq<string>, x: string)
    ensures Elems(s + [x]) == Elems(s) + {x}
  {
  }

  lemma RangeSnoc(lo: int, hi: int)
    requires lo <= hi
    ensures Range(lo, hi + 1) == Range(lo, hi) + [hi]
  {
  }

  /** One more position: its file is added exactly when its download
      succeeds. */
  lemma NamesStep(chapter: int, n: nat, ok: (int, int) -> bool)
    ensures Names(chapter, n + 1, ok) ==
      Names(chapter, n, ok) + (if ok(chapter, n + 1) then [ImagePath(chapter, n + 1)] else [])
  {
    RangeSnoc(1, n + 1);
    FilterSnoc(Range(1, n + 1), n + 1, Good(chapter, ok));
    if ok(chapter, n + 1) {
      MapSnoc(Saved(chapter, n, ok), n + 1, NameOf(chapter));
    } else {
      assert Saved(chapter, n, ok) + [] == Saved(chapter, n, ok);
    }
  }

  /** `download_images`: image `idx` (from 1) is saved as `idx.jpg` when
      its download succeeds; a failure is printed and skipped, and the
      position still advances, leaving a gap in the names. */
  method DownloadImages(urls: seq<string>, chapter: int, ok: (int, int) -> bool, files: set<string>)
    returns (written: seq<string>, files': set<string>)
    ensures written == Names(chapter, |urls|, ok)
    ensures files' == files + Elems(written)
  {
    written, files' := [], files;
    for idx := 1 to |urls| + 1
      invariant written == Names(chapter, idx - 1, ok)
      invariant files' == files + Elems(written)
    {
      NamesStep(chapter, idx - 1, ok);
      if ok(chapter, idx) {
        ElemsSnoc(written, ImagePath(chapter, idx));
        written := written + [ImagePath(chapter, idx)];
        files' := files' + {ImagePath(chapter, idx)};
      } else {
        assert written + [] == written;
      }
    }
  }

  /** The gap: `idx.jpg` is written exactly when idx is a position of the
      list whose download succeeded, whatever happened to the others. */
  lemma SavedNames(chapter: int, n: nat, ok: (int, int) -> bool, idx: int)
    ensures ImagePath(chapter, idx) in Names(chapter, n, ok) <==> 1 <= idx <= n && ok(chapter, idx)
  {
    var saved := Saved(chapter, n, ok);
    FilterMembers(Range(1, n + 1), Good(chapter, ok));
    RangeMembers(1, n + 1, idx);
    var names := Names(chapter, n, ok);
    if ImagePath(chapter, idx) in names {
      var k :| 0 <= k < |names| && names[k] == ImagePath(chapter, idx);
      ImagePathInjective(chapter, saved[k], idx);
    }
    if 1 <= idx <= n && ok(chapter, idx) {
      assert Good(chapter, ok)(idx);
      var k :| 0 <= k < |saved| && saved[k] == idx;
      assert names[k] == ImagePath(chapter, idx);
    }
  }

  /** Whether a chapter's page yields image URLs. */
  function HasImages(site: int -> Page): int -> bool {
    c => GetImageUrls(site(c)) != []
  }

  /** The chapters of a list whose page yields image URLs. */
  function Downloaded(chapters: seq<int>, site: int -> Page): seq<int> {
    Filter(chapters, HasImages(site))
  }

  /** Every image the given chapters save. */
  function SavedImages(chapters: seq<int>, site: int -> Page, ok: (int, int) -> bool): set<string> {
    set c, x | c in chapters && x in Names(c, |GetImageUrls(site(c))|, ok) :: x
  }

  /** An image is saved exactly when it is the file of a successful
      position of one of the chapters' image lists. */
  lemma SavedImagesMembers(chapters: seq<int>, site: int -> Page, ok: (int, int) -> bool, x: string)
    ensures x in SavedImages(chapters, site, ok) <==>
      exists c, idx :: c in chapters && 1 <= idx <= |GetImageUrls(site(c))| && ok(c, idx) && x == ImagePath(c, idx)
  {
    if x in SavedImages(chapters, site, ok) {
      var c :| c in chapters && x in Names(c, |GetImageUrls(site(c))|, ok);
      var n := |GetImageUrls(site(c))|;
      var k :| 0 <= k < |Names(c, n, ok)| && Names(c, n, ok)[k] == x;
      var idx := Saved(c, n, ok)[k];
      SavedNames(c, n, ok, idx);
      assert x == ImagePath(c, idx);
    }
    if exists c, idx :: c in chapters && 1 <= idx <= |GetImageUrls(site(c))| && ok(c, idx) && x == ImagePath(c, idx) {
      var c, idx :| c in chapters && 1 <= idx <= |GetImageUrls(site(c))| && ok(c, idx) && x == ImagePath(c, idx);
      SavedNames(c, |GetImageUrls(site(c))|, ok, idx);
    }
  }

  /** What the chapter loop holds after the first i chapters. */
  ghost predicate Processed(chapters: seq<int>, i: nat, site: int -> Page, ok: (int, int) -> bool, files: set<string>,
                            requested: seq<string>, downloaded: seq<int>, files': set<string>)
    requires i <= |chapters|
  {
    requested == Map(chapters[..i], ChapterUrl) &&
    downloaded == Downloaded(chapters[..i], site) &&
    files' == files + SavedImages(chapters[..i], site, ok)
  }

  lemma ProcessedStep(chapters: seq<int>, i: nat, site: int -> Page, ok: (int, int) -> bool, files: set<string>,
                      requested: seq<string>, downloaded: seq<int>, files': set<string>, written: set<string>)
    requires i < |chapters| && Processed(chapters, i, site, ok, files, requested, downloaded, files')
    requires written == Elems(Names(chapters[i], |GetImageUrls(site(chapters[i]))|, ok))
    ensures Processed(chapters, i + 1, site, ok, files,
      requested + [ChapterUrl(chapters[i])],
      downloaded + (if GetImageUrls(site(chapters[i])) != [] then [chapters[i]] else []),
      files' + written)
  {
    MapTake(chapters, i, ChapterUrl);
    FilterTake(chapters, i, HasImages(site));
    SavedImagesSnoc(chapters, i, site, ok);
  }

  lemma SavedImagesSnoc(chapters: seq<int>, i: nat, site: int -> Page, ok: (int, int) -> bool)
    requires i < |chapters|
    ensures SavedImages(chapters[..i + 1], site, ok) ==
      SavedImages(chapters[..i], site, ok) + Elems(Names(chapters[i], |GetImageUrls(site(chapters[i]))|, ok))
  {
    var n := Elems(Names(chapters[i], |GetImageUrls(site(chapters[i]))|, ok));
    forall x | x in SavedImages(chapters[..i + 1], site, ok)
      ensures x in SavedImages(chapters[..i], site, ok) + n
    {
      var c :| c in chapters[..i + 1] && x in Names(c, |GetImageUrls(site(c))|, ok);
      InTake(chapters, i, c);
    }
    forall x | x in SavedImages(chapters[..i], site, ok) + n
      ensures x in SavedImages(chapters[..i + 1], site, ok)
    {
      InTake(chapters, i, chapters[i]);
      if x !in n {
        var c :| c in chapters[..i] && x in Names(c, |GetImageUrls(site(c))|, ok);
        InTake(chapters, i, c);
      }
    }
  }

  /** One pass of the chapter loop of `main`: the chapter's page is
      fetched, and unless it yields no image URLs its images are saved. */
  method ProcessChapter(chapter: int, site: int -> Page, ok: (int, int) -> bool, files: set<string>)
    returns (fetched: bool, files': set<string>)
    ensures fetched == (GetImageUrls(site(chapter)) != [])
    ensures files' == files + Elems(Names(chapter, |GetImageUrls(site(chapter))|, ok))
  {
    var urls := GetImageUrls(site(chapter));
    if urls == [] {
      assert Elems(Names(chapter, 0, ok)) == {};
      return false, files;
    }
    var written;
    written, files' := DownloadImages(urls, chapter, ok, files);
    fetched := true;
  }

  /** The chapter loop of `main`: every chapter's page is fetched, a chapter
      with no image URLs is skipped, and the others have their images
      saved. */
  method DownloadChapters(chapters: seq<int>, site: int -> Page, ok: (int, int) -> bool, files: set<string>)
    returns (requested: seq<string>, downloaded: seq<int>, files': set<string>)
    ensures requested == Map(chapters, ChapterUrl)
    ensures downloaded == Downloaded(chapters, site)
    ensures files' == files + SavedImages(chapters, site, ok)
  {
    requested, downloaded, files' := [], [], files;
    for i := 0 to |chapters|
      invariant Processed(chapters, i, site, ok, files, requested, downloaded, files')
    {
      var fetched, next := ProcessChapter(chapters[i], site, ok, files');
      ProcessedStep(chapters, i, site, ok, files, requested, downloaded, files',
                    Elems(Names(chapters[i], |GetImageUrls(site(chapters[i]))|, ok)));
      requested := requested + [ChapterUrl(chapters[i])];
      if fetched {
        downloaded := downloaded + [chapters[i]];
      } else {
        assert downloaded + [] == downloaded;
      }
      files' := next;
    }
    TakeAll(chapters);
  }

  // The glob `HxH/Chapter_*/[0-9]*.jpg`: a chapter folder under `HxH`,
  // then a file whose name starts with a digit and ends in ".jpg".
  predicate IsImagePath(p: string) {
    "HxH/Chapter_" <= p &&
    exists k :: 12 <= k < |p| && p[k] == '/' && '/' !in p[12..k] && IsImageName(p[k + 1..])
  }

  /** `[0-9]*.jpg` within one folder. */
  predicate IsImageName(name: string) {
    |name| >= 5 && IsDigit(name[0]) && name[|name| - 4..] == ".jpg" && '/' !in name
  }

  /** Every image `download_images` writes for a chapter from 0 up is one
      the glob of `create_pdf` picks up. */
  lemma SavedImagesMatchGlob(chapter: nat, idx: nat)
    requires idx >= 1
    ensures IsImagePath(ImagePath(chapter, idx))
  {
    var c, n := IntToString(chapter), IntToString(idx);
    assert ImagePath(chapter, idx) == "HxH/Chapter_" + c + "/" + (n + ".jpg");
    NoSlashInNumber(chapter);
    NumberJpgIsImageName(idx);
    GlobShape(c, n + ".jpg");
  }

  lemma NoSlashInNumber(n: int)
    ensures '/' !in IntToString(n)
  {
    IntToStringChars(n);
  }

  /** `idx.jpg` matches `[0-9]*.jpg`. */
  lemma NumberJpgIsImageName(idx: nat)
    ensures IsImageName(IntToString(idx) + ".jpg")
  {
    var n := IntToString(idx);
    var name := n + ".jpg";
    assert name[0] == n[0];
    assert name[|name| - 4..] == ".jpg";
    NoSlashInNumber(idx);
    assert '/' !in name by {
      forall i | 0 <= i < |name| ensures name[i] != '/' {
        if i < |n| {
          assert name[i] == n[i];
        }
      }
    }
  }

  /** A path of a chapter folder whose name has no '/', then an image name. */
  lemma GlobShape(c: string, name: string)
    requires '/' !in c && IsImageName(name)
    ensures IsImagePath("HxH/Chapter_" + c + "/" + name)
  {
    var p := "HxH/Chapter_" + c + "/" + name;
    var k := 12 + |c|;
    assert p[..12] == "HxH/Chapter_";
    assert p[12..k] == c;
    assert p[k] == '/';
    assert p[k + 1..] == name;
  }

  /** `create_pdf`: nothing without matching images; otherwise the PDF's
      pages are the matching paths in string order. */
  function CreatePdf(globbed: seq<string>): (pages: Option<seq<string>>)
  {
    var images := Filter(globbed, IsImagePath);
    if images == [] then None else Some(Sort(images))
  }

  /** The PDF is made exactly when some listed path matches, and then its
      pages are those paths, each as often as listed, in sorted order. */
  lemma CreatePdfSpec(globbed: seq<string>)
    ensures CreatePdf(globbed).None? <==> forall p :: p in globbed ==> !IsImagePath(p)
    ensures CreatePdf(globbed).Some? ==>
      Sorted(CreatePdf(globbed).value) &&
      multiset(CreatePdf(globbed).value) == multiset(Filter(globbed, IsImagePath)) &&
      forall p :: p in CreatePdf(globbed).value <==> p in globbed && IsImagePath(p)
  {
    var images := Filter(globbed, IsImagePath);
    FilterMembers(globbed, IsImagePath);
    if images != [] {
      assert images[0] in globbed && IsImagePath(images[0]);
      forall p ensures p in Sort(images) <==> p in images {
        assert p in Sort(images) <==> p in multiset(Sort(images));
      }
    }
  }

  lemma TenAndTwoPaths()
    ensures ImagePath(381, 2) == "HxH/Chapter_381/2.jpg"
    ensures ImagePath(381, 10) == "HxH/Chapter_381/10.jpg"
  {
    Folder381();
    assert NatToString(2) == "2";
    assert NatToString(10) == "10";
  }

  lemma Folder381()
    ensures SaveFolder(381) == "HxH/Chapter_381"
  {
    assert NatToString(38) == "38";
    assert NatToString(381) == "381";
  }

  lemma FilterBoth(a: string, b: string)
    requires IsImagePath(a) && IsImagePath(b)
    ensures Filter([a, b], IsImagePath) == [a, b]
  {
    assert [a, b][1..] == [b];
  }

  lemma TenLessThanTwo()
    ensures Less("HxH/Chapter_381/10.jpg", "HxH/Chapter_381/2.jpg")
  {
    var ten, two := "HxH/Chapter_381/10.jpg", "HxH/Chapter_381/2.jpg";
    assert ten[..16] == two[..16];
    LessAtFirstDifference(ten, two, 16);
  }

  lemma SortPair(a: string, b: string)
    requires Less(a, b)
    ensures Sort([b, a]) == [a, b]
  {
    SortedPair(Sort([b, a]), a, b);
  }

  lemma SortedPair(r: seq<string>, a: string, b: string)
    requires Sorted(r) && multiset(r) == multiset([b, a]) && Less(a, b)
    ensures r == [a, b]
  {
    assert multiset([a, b]) == multiset([b, a]);
    assert Sorted([a, b]) by {
      assert LessEq(a, b);
    }
    SortedUnique(r, [a, b]);
  }

  /** Path order is not page order: in chapter 381, `10.jpg` is put before
      `2.jpg`. */
  lemma TenBeforeTwo()
    ensures CreatePdf([ImagePath(381, 2), ImagePath(381, 10)]) == Some([ImagePath(381, 10), ImagePath(381, 2)])
  {
    var two, ten := ImagePath(381, 2), ImagePath(381, 10);
    TenAndTwoPaths();
    SavedImagesMatchGlob(381, 2);
    SavedImagesMatchGlob(381, 10);
    FilterBoth(two, ten);
    TenLessThanTwo();
    SortPair(ten, two);
  }

  /** `main`: the chapters are downloaded, then one PDF is made from what
      the glob lists afterwards, and written as `HxH_383-410.pdf` when it has
      a page. */
  method Run(site: int -> Page, ok: (int, int) -> bool, listing: set<string> -> seq<string>, files: set<string>)
    returns (requested: seq<string>, downloaded: seq<int>, pages: Option<seq<string>>, files': set<string>)
    ensures requested == Map(Chapters, ChapterUrl)
    ensures downloaded == Downloaded(Chapters, site)
    ensures pages == CreatePdf(listing(files + SavedImages(Chapters, site, ok)))
    ensures files' == WithPdf(files + SavedImages(Chapters, site, ok), pages)
  {
    var saved;
    requested, downloaded, saved := DownloadChapters(Chapters, site, ok, files);
    pages := CreatePdf(listing(saved));
    files' := WithPdf(saved, pages);
  }

  /** The disk after `create_pdf`: the PDF is written only when there were pages. */
  function WithPdf(disk: set<string>, pages: Option<seq<string>>): (r: set<string>)
    ensures OutputPdf in r <==> pages.Some? || OutputPdf in disk
    ensures disk <= r && r - disk <= {OutputPdf}
  {
    if pages.Some? then disk + {OutputPdf} else disk
  }

  /** When the listing enumerates the disk, every image the run saved is a
      page of the PDF. */
  lemma RunSavesIntoPdf(files: set<string>, site: int -> Page, ok: (int, int) -> bool, listing: set<string> -> seq<string>, x: string)
    requires forall s: set<string>, y :: y in listing(s) <==> y in s
    requires x in SavedImages(Chapters, site, ok)
    ensures CreatePdf(listing(files + SavedImages(Chapters, site, ok))).Some?
    ensures x in CreatePdf(listing(files + SavedImages(Chapters, site, ok))).value
  {
    SavedImageMatches(site, ok, x);
    var disk := files + SavedImages(Chapters, site, ok);
    var globbed := listing(disk);
    assert x in globbed;
    MatchInPdf(globbed, x);
  }

  lemma SavedImageMatches(site: int -> Page, ok: (int, int) -> bool, x: string)
    requires x in SavedImages(Chapters, site, ok)
    ensures IsImagePath(x)
  {
    SavedImagesMembers(Chapters, site, ok, x);
    var c, idx :| c in Chapters && 1 <= idx <= |GetImageUrls(site(c))| && ok(c, idx) && x == ImagePath(c, idx);
    SavedImagesMatchGlob(c, idx);
  }

  lemma MatchInPdf(globbed: seq<string>, x: string)
    requires x in globbed && IsImagePath(x)
    ensures CreatePdf(globbed).Some? && x in CreatePdf(globbed).value
  {
    CreatePdfSpec(globbed);
  }
}
