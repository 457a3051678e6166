# Manga volume scripts: a Dafny model

This project models the deterministic rules inside six standalone Python
scripts that download manga chapters page by page and bind chapter and
volume PDFs:

| script | module |
|---|---|
| `SpyXFamily.py` | `SpyXFamily` |
| `chainsawvolume.py` | `ChainsawVolume` |
| `mashle.py` | `Mashle` |
| `main.py` (the Dandadan volume merger) | `DandadanVolume` |
| `HxH/main.py` (the Hunter x Hunter scraper) | `HunterXHunter` |
| `download.py` (the Dandadan downloader) | `DandadanDownload` |

The rules modelled are these:
- how file names and URLs are built: `str.replace`, `str()` of integers, and `03d`/`02d` padding;
- the page-probing loops that stop at the first failed page;
- which images become a chapter PDF;
- the order in which a volume's merger receives the cover and the chapter PDFs;
- the bookkeeping on the hardcoded volume tables: flattening, duplicates, and the `seen` set.

The world is passed in as plain values:
- the disk is a `set<string>` of existing paths;
- the web server is an oracle (a list of responses per chapter, or a function from chapter to page);
- a directory listing is a given sequence of names;
- a PDF merger is the `seq<string>` of the paths appended to it.

Every script operation that loops or changes state is a `method`. Each such method is proved against a specification function, such as `VolumeMerge`, `AvailablePrefix`, `ChapterFiles`, `Names` or `VolumeChapters`. Lemmas about those functions state what the scripts promise.

Shared modules:
- `Lists`: ranges, flattening, filtering, deduplication, duplicates, subsequences.
- `Numerals`: `str(n)` and zero padding, with a round trip back to the number.
- `Strings`: Python's `str.replace`, `in`, string order and `sorted`.
- `Probe`: the leading run of successful pages.

Behaviours the model exposes, as the code is written:
- `mashle.py`'s `compile_volumes` only prints when a cover jpg is missing. It then reads the jpg regardless, and that raises. The run ends at the first volume without a cover (`Mashle.CompileVolumes`).
- `HxH/main.py` sorts image paths as strings, so `10.jpg` comes before `2.jpg` in the PDF (`HunterXHunter.TenBeforeTwo`).
- `HxH/main.py` visits chapters 381 to 410, as `range(381, 411)` says. The comment beside it says 383.
- `download.py` writes `Dandadan_Chapter_N.pdf` into the folder that `main.py` lists. No pattern `Dandadan NNN.pdf` matches such a name, so the merger never picks those files up as they are (`DandadanDownload.PdfsNotFoundByVolumeMerger`).

## Model

| member | source | states |
|---|---|---|
| SpyXFamily.Sanitize | SpyXFamily.py:24-26 | same length; each `.` becomes `_` and every other character is kept; no `.` is left |
| SpyXFamily.SanitizeExample | SpyXFamily.py:16-26 | chapter 105.5 gets the folder id "105_5" |
| SpyXFamily.SanitizeInjective | SpyXFamily.py:24-26 | chapter ids without `_` keep distinct sanitised names |
| SpyXFamily.ChapterPdfInjective | SpyXFamily.py:60-61 | distinct chapter ids get distinct chapter PDF paths, so the compiler finds the PDF the converter wrote for that chapter and no other |
| SpyXFamily.PageJpgInjective | SpyXFamily.py:35-36 | pages of a chapter are told apart by their `Page_{page}.jpg` name |
| SpyXFamily.JpgIsNotWebp | SpyXFamily.py:35-36 | a page jpg is never a page webp, so removing a webp never removes a jpg |
| SpyXFamily.ChapterPdfIsNotCoverOrVolume | SpyXFamily.py:101-134 | chapter PDFs are distinct from cover jpegs, cover PDFs and volume PDFs |
| SpyXFamily.CoverJpegIsNotPdf | SpyXFamily.py:103-104 | a cover jpeg is neither a cover PDF nor a volume PDF |
| SpyXFamily.DownloadImage | SpyXFamily.py:29-55 | a path is returned exactly for a 200 answer that converts; then the jpg is written and the webp removed; a failed conversion leaves the webp; any other status changes nothing |
| SpyXFamily.JpgsUpToMembers | SpyXFamily.py:89-95 | the jpgs written for pages 1..k are exactly those pages' jpgs |
| SpyXFamily.WebpNotInJpgs | SpyXFamily.py:45-48 | no webp is among the jpgs written |
| SpyXFamily.DownloadPages | SpyXFamily.py:89-95 | the pages kept are the leading run of kept answers; the disk holds their jpgs, not their webps, plus the webp of a final 200 page that failed to convert |
| SpyXFamily.ConvertImagesToPdf | SpyXFamily.py:58-82 | the pages bound are `Page_1.jpg`, `Page_2.jpg`, … all on disk, up to the first missing one; the PDF is written exactly when a page was bound |
| SpyXFamily.ProcessChapter | SpyXFamily.py:89-97 | the pages downloaded are the available prefix; the PDF holds at least those pages, in page order; on a disk with no older pages it holds exactly them; the new disk is the downloaded disk, plus the chapter PDF exactly when a first page jpg is there to bind |
| SpyXFamily.ChapterDiskHasPdf | SpyXFamily.py:89-97 | a chapter whose first page was kept ends with its chapter PDF |
| SpyXFamily.PdfIsNotWebp | SpyXFamily.py:35-36 | a chapter PDF is never a page webp |
| SpyXFamily.PdfSurvives | SpyXFamily.py:45-48 | processing another chapter removes only webps, so an existing chapter PDF stays |
| SpyXFamily.ChaptersDiskHasPdfs | SpyXFamily.py:85-97 | after all chapters, every chapter whose first page was kept has its chapter PDF, whatever later chapters did |
| SpyXFamily.SavedCounts | SpyXFamily.py:89-95 | one count per chapter, each the leading run of that chapter's kept answers |
| SpyXFamily.ProcessChapters | SpyXFamily.py:85-97 | chapters are visited in flattened `VOLUMES` order, each gets the available prefix of its answers, and the final disk is each chapter's disk effect applied in that order |
| SpyXFamily.CreateCoverPdf | SpyXFamily.py:101-116 | None exactly when the cover jpeg is missing; otherwise the cover PDF path, which is then written |
| SpyXFamily.ExistingPdfsSnoc | SpyXFamily.py:132-140 | one more chapter adds its PDF exactly when that PDF exists |
| SpyXFamily.VolumeMergeShape | SpyXFamily.py:126-140 | the merge starts with the cover exactly when the cover jpeg exists; every other entry is an existing PDF of a chapter of the volume |
| SpyXFamily.VolumeMergeFrame | SpyXFamily.py:120-140 | the merge depends only on the cover jpeg and the chapter PDFs on disk |
| SpyXFamily.AppendExisting | SpyXFamily.py:132-140 | the merger receives each existing chapter PDF, in chapter order |
| SpyXFamily.CompileVolume | SpyXFamily.py:122-147 | the merger is cover-then-existing-chapters; the cover PDF is written when the jpeg exists; the volume PDF is written only when the merger is non-empty |
| SpyXFamily.VolumeKeepsInputs | SpyXFamily.py:120-147 | compiling a volume writes nothing a later volume reads |
| SpyXFamily.CompileVolumes | SpyXFamily.py:120-147 | every volume's merger is its merge on the disk as it was before compiling |
| ChainsawVolume.TableIsConsecutive | chainsawvolume.py:7-13 | the table's chapter lists are the consecutive ranges between ascending bounds |
| ChainsawVolume.VolumesContiguous | chainsawvolume.py:7-13 | the volumes, in table order, list chapters 134 to 187, once each, in order |
| ChainsawVolume.VolumesHaveNoDuplicates | chainsawvolume.py:118-126 | the `duplicates` set computed for the table is empty |
| ChainsawVolume.VolumesDisjoint | chainsawvolume.py:7-13 | no two volumes share a chapter |
| ChainsawVolume.CollectChapters | chainsawvolume.py:118-121 | the `extend` loop yields every volume's chapters in table order |
| ChainsawVolume.ChapterPdfInjective | chainsawvolume.py:27-28 | distinct chapters get distinct `ChainsawMan_NNN.pdf` paths, at any number of digits |
| ChainsawVolume.CoverIsNotChapter | chainsawvolume.py:28-64 | a cover PDF in the temp folder is never a chapter PDF |
| ChainsawVolume.KeepOpenable | chainsawvolume.py:41-47 | the kept images are the ones that open, in the given order |
| ChainsawVolume.OpenedImagesOrdered | chainsawvolume.py:35-47 | a new chapter PDF's pages follow the stem order and all open |
| ChainsawVolume.CreateChapterPdf | chainsawvolume.py:25-56 | an existing PDF is returned untouched; otherwise the PDF is made from the images that open; None when there is no jpg or none opens |
| ChainsawVolume.AddCover | chainsawvolume.py:58-70 | the cover PDF is appended exactly when the jpeg exists; it is converted only when missing |
| ChainsawVolume.VolumeChaptersSpec | chainsawvolume.py:86-103 | a volume holds each chapter once; it holds exactly the chapters of its list that get a PDF; they form a subsequence of the list and come in the order of their first listing |
| ChainsawVolume.VolumeChaptersUnique | chainsawvolume.py:86-103 | those properties determine the held chapters: any list meeting them is the one the loop builds |
| ChainsawVolume.ProducesStable | chainsawvolume.py:90-92 | PDFs made earlier in the loop never change whether a later chapter gets one |
| ChainsawVolume.HandledAppend | chainsawvolume.py:94-101 | a new chapter with a PDF is appended and marked seen |
| ChainsawVolume.HandledSkip | chainsawvolume.py:94-103 | a seen chapter, or one without a PDF, changes nothing |
| ChainsawVolume.AddChapters | chainsawvolume.py:86-103 | `processed_chapters` is the volume's chapter list; the merger is the cover part, then those chapters' PDFs; the chapter PDFs on disk afterwards are the old ones plus one per producible chapter, and nothing else is written |
| ChainsawVolume.CreateVolume | chainsawvolume.py:72-113 | nothing is done when the volume file exists; otherwise the merger is the cover (if its jpeg exists), then each producible chapter once; the cover PDF exists afterwards when the jpeg does, the chapter PDFs made are exactly those of producible chapters, and the only new files are the cover PDF, those chapter PDFs and the volume file |
| ChainsawVolume.VolumeIsNotChapter | chainsawvolume.py:74 | a volume file is never a chapter PDF |
| ChainsawVolume.VolumeIsNotCover | chainsawvolume.py:74 | a volume file is never a cover PDF |
| ChainsawVolume.VolumeFileInjective | chainsawvolume.py:74 | different volume numbers get different `ChainsawMan_Volume_NN.pdf` files |
| ChainsawVolume.JpegIsNotPdf | chainsawvolume.py:60-74 | a cover jpeg is never a cover PDF, a volume file or a chapter PDF, so no build creates one |
| ChainsawVolume.ProducesAfterCover | chainsawvolume.py:58-92 | handling the cover changes no chapter's outcome |
| ChainsawVolume.VolumeMergeSame | chainsawvolume.py:72-103 | two disks with the same cover jpegs and the same producible chapters give a volume the same merger |
| ChainsawVolume.BuildKeepsInputs | chainsawvolume.py:72-113 | building a volume changes neither the cover jpegs nor which chapters get a PDF |
| ChainsawVolume.TableKeysDistinct | chainsawvolume.py:7-13 | the table lists each volume number once |
| ChainsawVolume.LaterVolumeFilesKept | chainsawvolume.py:128-130 | building one volume does not create the file of another volume |
| ChainsawVolume.VolumeStep | chainsawvolume.py:128-130 | one turn of the volume loop gives the volume its outcome on the starting disk and keeps what later volumes read |
| ChainsawVolume.Run | chainsawvolume.py:115-130 | `duplicates` is the set of chapters listed more than once; the check only warns; each volume whose file was missing is merged as on the starting disk, the others are skipped; every volume file exists afterwards; nothing is removed, and nothing is added but the covers, chapter PDFs and volume files of the table |
| ChainsawVolume.CreateVolumes | chainsawvolume.py:128-130 | each volume is skipped when its file exists and otherwise merged exactly as on the starting disk; every volume file exists afterwards; nothing is removed, and every added path is a cover PDF, chapter PDF or volume file of a listed volume |
| ChainsawVolume.WritesStep | chainsawvolume.py:72-112 | one volume adds at most its cover PDF, its chapters' PDFs and its volume file |
| ChainsawVolume.JpegNotWritten | chainsawvolume.py:58-112 | building a volume never writes a cover jpeg |
| ChainsawVolume.WritesNoCoverJpeg | chainsawvolume.py:128-130 | the volume loop never writes a cover jpeg, so the covers it reads are those present at the start |
| Mashle.TableIsConsecutive | mashle.py:12-23 | the table's chapter lists are the consecutive ranges between ascending bounds |
| Mashle.ListsBetweenBounds | mashle.py:12-23 | a table whose lists run from bound to bound has the consecutive ranges as its chapter lists |
| Mashle.VolumesCoverChapters | mashle.py:8-23 | the volumes, concatenated in table order, are exactly `CHAPTERS` |
| Mashle.ChapterHasVolume | mashle.py:8-23 | a chapter is in `CHAPTERS` exactly when some volume holds it |
| Mashle.VolumeOfChapterUnique | mashle.py:12-23 | no chapter is in two volumes |
| Mashle.PageStemHasNoDot | mashle.py:58-63 | no `.` occurs before a page's extension |
| Mashle.JpgPathShape | mashle.py:63-64 | the `.webp`→`.jpg` rewrite changes only the extension |
| Mashle.JpgIsNotWebp | mashle.py:63-64 | a page jpg is never a page webp |
| Mashle.JpgPathInjective | mashle.py:63-64 | distinct pages get distinct jpgs |
| Mashle.AfterPagesStep | mashle.py:67-71 | one more page writes its webp, writes its jpg, then removes its webp |
| Mashle.RequestNext | mashle.py:61-65 | requesting page n + 1 extends the requests for pages 1..n by that page's URL |
| Mashle.FetchPages | mashle.py:61-71 | pages 1, 2, … are requested up to the first failure, 20 at most; the jpgs of the arrived pages are in page order and on disk |
| Mashle.DownloadChapter | mashle.py:56-78 | at most 20 requests; the images are the jpgs of the leading run of arrived pages, capped at 20; the chapter PDF exists exactly when there is an image |
| Mashle.CoverJpgPathsAgree | mashle.py:82-83 | for a name without `.`, the cover converter writes the jpg that `compile_volumes` reads |
| Mashle.CoverJpgPathsDisagree | mashle.py:82-106 | a name containing ".webp" sends the converted jpg elsewhere |
| Mashle.CreateVolumeCoverPdf | mashle.py:80-100 | None exactly when the webp cover is missing; otherwise the webp becomes a jpg and is removed, and the cover PDF is written |
| Mashle.OutputsAreNotInputs | mashle.py:105-107 | cover and volume PDFs are never chapter PDFs or cover jpgs |
| Mashle.AppendExisting | mashle.py:125-131 | the merger receives each existing chapter PDF, in chapter order |
| Mashle.CompileVolume | mashle.py:104-136 | with the cover jpg, the merger is the cover PDF then the existing chapter PDFs, and both PDFs are written; without it the run stops and nothing is written |
| Mashle.OutputsAvoidInputs | mashle.py:104-136 | nothing compiling writes is a chapter PDF or a cover jpg |
| Mashle.MergeUnchanged | mashle.py:125-131 | writing PDFs other than chapter PDFs leaves a volume's merger unchanged |
| Mashle.CompileStep | mashle.py:104-136 | a later volume sees its inputs as they were before compiling began |
| Mashle.CompiledStep | mashle.py:104-136 | a volume with its cover extends the compiled prefix by its merge |
| Mashle.CompileVolumes | mashle.py:102-136 | volumes are compiled in table order until the first one without a cover jpg; each merger is the merge on the original disk; only cover and volume PDFs are added |
| Mashle.FinishedIffCovers | mashle.py:102-136 | the compilation stops before the end exactly when some volume lacks its cover jpg |
| Mashle.Run | mashle.py:138-144 | only compilation runs; it finishes exactly when every cover jpg exists; otherwise it stops at the first volume without one, after merging every earlier volume as on the original disk; the final disk adds the cover and volume PDFs of the merged volumes |
| DandadanVolume.AllPdfFilesSpec | main.py:66 | the listing's PDF names, sorted, each as often as it is listed |
| DandadanVolume.FindChapterFiles | main.py:19-27 | at most as many matches as listed names |
| DandadanVolume.FindChapterFilesSpec | main.py:19-27 | a name is found exactly when it is listed and starts with the chapter's pattern; listing order is kept, and so are sortedness and absence of repeats |
| DandadanVolume.PatternsPrefixFree | main.py:21-22 | no chapter's pattern is a prefix of another chapter's pattern |
| DandadanVolume.MatchesOneChapter | main.py:21-23 | no file name matches two chapters |
| DandadanVolume.ChapterFilesMembers | main.py:52-56 | a path is merged exactly when it is a listed name that one of the chapters matches |
| DandadanVolume.ChapterFilesDistinct | main.py:52-56 | with distinct chapters and names, no file is merged twice |
| DandadanVolume.CoverNeverMatches | main.py:31-36 | no chapter pattern matches the cover PDF's name |
| DandadanVolume.CoverInInputFolder | main.py:14-36 | the cover PDF is written into the folder the chapters are listed from |
| DandadanVolume.CoverIsNotVolume | main.py:36-45 | the cover PDF is never a volume file |
| DandadanVolume.VolumeFileExample | main.py:45 | volume 18 is written to `Volume_18.pdf` |
| DandadanVolume.AddCover | main.py:29-41 | with the jpeg, its PDF is written and appended; without it, nothing changes |
| DandadanVolume.AppendChapter | main.py:53-56 | a chapter's found files are appended in order |
| DandadanVolume.AppendChapters | main.py:52-56 | the chapters' files are appended chapter by chapter |
| DandadanVolume.CreateVolume | main.py:43-61 | the merger is the cover part, then the chapter files; the volume file is written |
| DandadanVolume.Run | main.py:63-70 | the listing is sorted once, and each volume of the table is created from it |
| DandadanVolume.VolumeMergeShape | main.py:7-9 | for volume 18 from a listing without repeats: no file repeats, and the files are exactly the listed PDFs that match a chapter from 162 to 176 |
| HunterXHunter.Present | HxH/main.py:23 | at most as many sources as tags |
| HunterXHunter.PresentSpec | HxH/main.py:23 | the kept sources are the present, non-empty `src` values, in document order |
| HunterXHunter.GetImageUrls | HxH/main.py:17-20 | no URLs unless the status is 200 |
| HunterXHunter.GetImageUrlsSpec | HxH/main.py:12-28 | every URL is non-empty and names an image host; with status 200, every such source is returned; document order is kept |
| HunterXHunter.GetImageUrlsExamples | HxH/main.py:10-28 | a source on the first host is kept; empty and missing sources are dropped; a 404 page gives nothing |
| HunterXHunter.ImagePathInjective | HxH/main.py:54 | distinct positions give distinct file names |
| HunterXHunter.NamesStep | HxH/main.py:51-60 | each position adds its file exactly when its download succeeds |
| HunterXHunter.DownloadImages | HxH/main.py:47-60 | the files written are `idx.jpg` for the successful positions, in order |
| HunterXHunter.SavedNames | HxH/main.py:51-60 | `idx.jpg` exists exactly when position idx succeeded, so a failure leaves a gap |
| HunterXHunter.SavedImagesMembers | HxH/main.py:62-73 | an image is saved exactly when it is the file of a successful position of some chapter's URL list |
| HunterXHunter.ProcessChapter | HxH/main.py:64-73 | a chapter without URLs is skipped; otherwise its images are saved |
| HunterXHunter.DownloadChapters | HxH/main.py:63-73 | every chapter's page is requested in order; the chapters with URLs are downloaded; the disk gains their saved images |
| HunterXHunter.SavedImagesMatchGlob | HxH/main.py:34-54 | every saved image matches `HxH/Chapter_*/[0-9]*.jpg` |
| HunterXHunter.CreatePdfSpec | HxH/main.py:32-43 | no PDF exactly when nothing matches; otherwise the pages are the matching paths, each as often as listed, in sorted order |
| HunterXHunter.TenBeforeTwo | HxH/main.py:34 | in chapter 381, `10.jpg` is put before `2.jpg` |
| HunterXHunter.Run | HxH/main.py:32-75 | chapters 381 to 410 are visited in order; the PDF's pages come from the listing of the disk after downloading; the final disk adds the saved images and, exactly when the PDF has a page, `HxH_383-410.pdf` |
| HunterXHunter.WithPdf | HxH/main.py:36-42 | `HxH_383-410.pdf` is written exactly when there are pages, and nothing else is added |
| HunterXHunter.RunSavesIntoPdf | HxH/main.py:62-75 | when the listing enumerates the disk, every saved image is a page of the PDF |
| DandadanDownload.PageUrlOfBase | download.py:19 | with the script's template, the URL is the chapter folder, then `{page}.jpg`; each placeholder is replaced exactly once |
| DandadanDownload.ChapterReplaced | download.py:19 | `xxx` is replaced by the chapter number |
| DandadanDownload.PageReplaced | download.py:19 | `00.jpg` is replaced by the page file, and the chapter number cannot form a second `00.jpg` |
| DandadanDownload.PageUrlInjective | download.py:19 | distinct pages of a chapter get distinct URLs |
| DandadanDownload.PageFileInjective | download.py:20 | distinct pages never share a file |
| DandadanDownload.PageFileExample | download.py:20 | page 7 is saved as `Page_07.jpg` |
| DandadanDownload.PageUrlExample | download.py:19 | page 7 is fetched as `7.jpg`, without padding |
| DandadanDownload.FetchPages | download.py:16-41 | pages 1..k+1 are requested and pages 1..k written, in order, where k is the leading run of pages that are not 404, raised, or rejected by `raise_for_status` |
| DandadanDownload.DownloadChapter | download.py:11-50 | the images are the written pages in order; the PDF exists exactly when there is at least one |
| DandadanDownload.DownloadChapterAsPdf | download.py:10-50 | chapters `chapter_start..chapter_end` inclusive, in order; each gets its outputs |
| DandadanDownload.PdfsOfRange | download.py:10-50 | one entry per chapter of the range: its PDF when it got a page, none otherwise |
| DandadanDownload.Run | download.py:52-58 | chapters 176 and 177 are downloaded into the chapter folder |
| DandadanDownload.PdfsInVolumeMergerFolder | download.py:45-56 | chapter PDFs land in the folder the volume merger lists |
| DandadanDownload.PdfsNotFoundByVolumeMerger | download.py:45 | no pattern of the volume merger matches a downloaded chapter PDF's name |
| Probe.AvailablePrefix | download.py:18-41 | the count of leading successes: all earlier pages succeeded, and the next failed |
| Probe.AvailablePrefixUnique | SpyXFamily.py:90-95 | a count with those two properties is the leading run |
| Probe.AvailablePrefixStops | mashle.py:67-68 | a failure at the next page fixes the leading run |
| Probe.AvailablePrefixNext | mashle.py:62-71 | a success at the next page extends the leading run |
| Numerals.NatToString | HxH/main.py:54 | `str(n)`: digits with no leading zero, whose value is n |
| Numerals.IntToStringInjective | main.py:31 | distinct integers render differently |
| Numerals.PadNatSpec | chainsawvolume.py:27 | the padded form is as long as the width or as `str(n)`, whichever is longer; it is all digits, and its value is n |
| Numerals.PadRoundTrip | chainsawvolume.py:27 | the padded form is an optional minus sign then digits, and it reads back as the number |
| Numerals.PadInjective | main.py:21 | distinct numbers never share a padded form |
| Numerals.PadShortExamples | main.py:21 | 5 → "005", 7 → "07", -5 → "-05" |
| Numerals.PadExactExample | main.py:21 | 162 → "162" |
| Numerals.PadLongExample | main.py:21 | 1000 → "1000", not truncated |
| Strings.ReplaceCharPointwise | SpyXFamily.py:26 | replacing one character by another maps the string position by position |
| Strings.ReplaceSkipNoHead | mashle.py:64 | a prefix without the pattern's first character is copied unchanged |
| Strings.ReplaceAtFront | mashle.py:64 | an occurrence at the front is replaced and the scan resumes after it |
| Strings.Sort | main.py:66 | `sorted`: a sorted permutation |
| Strings.SortedUnique | HxH/main.py:34 | a sorted list is determined by its elements |
| Strings.LessTotal | main.py:66 | any two different strings are ordered one way or the other |
| Lists.Duplicates | chainsawvolume.py:124 | the duplicates are among the chapters |
| Lists.DuplicatesEmptyIffDistinct | chainsawvolume.py:124-126 | no duplicates exactly when no chapter is listed twice |
| Lists.DedupSpec | chainsawvolume.py:86-101 | the `seen`-set deduplication keeps every value of the input, each once |
| Lists.DedupSnoc | chainsawvolume.py:95-101 | one more element is appended exactly when it was not seen before |
| Lists.DedupIsSubsequence | chainsawvolume.py:86-101 | the deduplicated list is a subsequence of the input |
| Lists.DedupFirstOrder | chainsawvolume.py:86-101 | each kept value comes before every value whose first occurrence in the input is later |
| Lists.DedupUnique | chainsawvolume.py:86-101 | a list holding each input value once, in first-occurrence order, is the deduplicated list |
| Lists.FirstOrderUnique | chainsawvolume.py:86-101 | two lists without repeats, with the same values, both in first-occurrence order of the same input, are equal |
| Lists.FilterFirstOrder | chainsawvolume.py:90-94 | skipping chapters without a PDF keeps the relative order of the others' first listings |
| Lists.DedupFilterFirstOrder | chainsawvolume.py:90-101 | deduplicating the chapters that get a PDF keeps their first-listing order in the whole list |
| Lists.FlattenConsecutive | mashle.py:8-23 | ranges between ascending bounds concatenate to the whole range |
| Lists.ConsecutiveDisjoint | chainsawvolume.py:7-13 | two different ranges between ascending bounds share nothing |
| Lists.NumberedAt | mashle.py:61-65 | entry i of the page-by-page requests is the request for page i + 1 |

## Left out

- HTTP: `requests.get`, status codes and streaming are oracles. A response is a status code, plus whether its body converts where the script converts.
- Connection errors outside a `try`: `requests.get` at `SpyXFamily.py:38`, `mashle.py:35` and `HxH/main.py:17` would end the script if it raised. The model assumes these calls return, so `SpyXFamily.DownloadImage`, `Mashle.FetchPages` and `HunterXHunter.GetImageUrls` have no raising case. Only `download.py` (`DandadanDownload`, whose responses may be `Raised`) and the `try` in `HxH/main.py`'s `download_images` (the `ok` oracle) model exceptions.
- `download.py` (`download.py:18`) and `SpyXFamily.py`'s `process_chapters` (`SpyXFamily.py:91-95`, `while True` until `download_image` returns `None`) loop with no bound. Their oracles record finitely many responses, and every later page answers 404, so every modelled run ends.
- `download.py` streams each page (`download.py:32-34`). A connection that fails partway through `iter_content` leaves a truncated `Page_PP.jpg` on disk that is not in `chapter_images`. The model's `Raised` writes nothing, so `DandadanDownload.DownloadChapter`'s final disk does not include such a partial file.
- `Image.open` at `HxH/main.py:40` and `download.py:46` is outside any `try`: an unreadable image (for instance an error page that `download_images` saved whatever its status, `HxH/main.py:53-56`) ends the script before the PDF is saved. The model treats every listed image as readable, so `HunterXHunter.WithPdf` and `DandadanDownload.DownloadChapter` write the PDF whenever there is an image.
- Image decoding and conversion (PIL), FPDF page layout and PyPDF2 merging internals are not modelled. A PDF is the sequence of paths appended to it. Page counts and image contents are not modelled.
- A chapter PDF written by FPDF or PIL is assumed to have at least one page whenever at least one image was added.
- `os.makedirs`, `print`, and the `time` import are left out, because they change nothing the scripts later read.
- Directory listings are given sequences. For `HxH/main.py`'s glob, the model uses a function from the disk to a listing; `HunterXHunter.RunSavesIntoPdf` assumes it enumerates the disk. In `main.py`, the listing is not tied to the disk set.
- BeautifulSoup parsing: a chapter page is its status plus the `src` value (or its absence) of each `img` tag, in document order.
- Float chapter ids are kept as the strings `str()` gives (`"105.5"`).
- General regular expressions are not modelled. The pattern in `main.py` escapes its only dot and its number holds only digits or a minus sign, so `re.match` with it is exactly a prefix test, and that test is what the model uses.
- `chainsaw.py` is not part of this model: it is browser automation with no rule besides a literal table.
- `mashle.py`'s download loop in `main` is commented out, so `Mashle.Run` only compiles. `Mashle.DownloadChapter` models `download_chapter` on its own.
- `mashle.py`'s `convert_webp_to_jpg` can raise on an unreadable image. The model treats every downloaded page as convertible.
- `DandadanDownload.BaseUrl` is written as the concatenation of its parts. It spells the same string as the script's literal.
- SpyXFamily.CompileVolumes: states each volume's merger, not the final disk. `SpyXFamily.CompileVolume` states the disk effect of one volume.
- ChainsawVolume.Run: bounds the final disk from below (the starting disk and every volume file) and from above (`ChainsawVolume.Writes`), but does not say which cover and chapter PDFs exist at the end; `ChainsawVolume.CreateVolume` states that for one build. Its mergers assume distinct volume numbers, which a Python dict guarantees.
- ChainsawVolume.CreateVolumes: the same bounds as `ChainsawVolume.Run`, for the same reason: which cover and chapter PDFs exist at the end is stated per build by `ChainsawVolume.CreateVolume` only.
