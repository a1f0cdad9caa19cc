# scrape-go: naming and collection pipeline

A Dafny model of the core of `main.go` in scrape-go, a tool that fetches a web
page, takes its title and image sources, downloads every image concurrently,
zips the images and saves the zip as `downloads/<title>.zip`.

What is modelled:

- **Title normalisation** (`Pages.NormalizeTitle`, `Pages.GetTitle`): every `/`
  and every space of the selected title text becomes `_`; an empty title is the
  error `TitleNotFound(selector)`.
- **Image sources** (`Pages.GetImageSrcs`): a method that allocates one slot per
  matched element and fills slot *i* with that element's `src`, leaving `""`
  when the attribute is missing. The document-query library is a `Document`
  value mapping a selector to its text and to the `src` attributes of its
  matches.
- **Entry names** (`Download`): `downloadImage` refuses an empty `src` before any
  request and names the image after the text following the last `/` of its URL
  (`Basename`, built on a model of `strings.Split`). Each task issues its own
  request (`Fetch` is indexed by position), so two elements with the same URL
  are fetched independently. `downloadImages` prefixes
  that name with `strconv.Itoa(i) + "-"` (`EntryName`, built on a model of
  `strconv.Itoa`). Reading the text before the first `-` back as a number gives
  *i* again, so distinct positions always give distinct names.
- **Collection** (`Download.DownloadImages`): the goroutines, channels and wait
  group are replaced by their sequential meaning. Tasks finish in an arrival
  order, a permutation of `0..n-1` given as a parameter. The aggregator loop
  appends each arriving image to its list. The first failing task to arrive ends
  the run with its error, as `log.Fatal` does. Otherwise the list holds exactly
  one image per source. It equals the position-ordered list up to that
  permutation, and each position prefix occurs exactly once.
- **Saving and the scrape chain** (`Scrape`): `save` writes to
  `"downloads/" + title + ".zip"` after creating the directory. The file-system
  calls are parameters that may fail. `scrape` returns the first error among
  fetching the document, taking the title and building the zip. A download
  failure ends the process (`Exited`). A failing `save` is not reported:
  `scrape` tests the save error `e` but returns `err`, which is nil at that point
  (main.go:202-206), and the model keeps that behaviour.

The model keeps these behaviours of the program:

- A failed or refused download ends the process through `log.Fatal`
  (main.go:123-125); it is not returned as an error.
- An empty `src` is reported as `MissingSrc` by `downloadImage` itself
  (main.go:91).
- A failed save is swallowed by `scrape` (main.go:202-206).

Fetching, parsing, zipping and file-system access are parameters (`Env`,
`Fetch`, `FileSystem`), not models of the libraries.

Files: `wrappers.dfy` (Option, Result), `text.dfy` (the Go string functions
used), `permutation.dfy` (arrival orders), `types.dfy` (Image, Page, Document,
Error), `page.dfy`, `download.dfy`, `scrape.dfy`.

## Model

| member | source | states |
|---|---|---|
| Text.ReplaceAll | main.go:37-38 | `strings.Replace(s, c, d, -1)`: same length; every `c` becomes `d`; every other character stays in place |
| Pages.NormalizeTitle | main.go:37-38 | the normalised title has the input's length, contains no `/` and no space, has `_` where the input had either, and is unchanged elsewhere |
| Pages.NormalizeTitleIdempotent | main.go:37-38 | normalising a normalised title changes nothing |
| Pages.GetTitle | main.go:35-44 | fails exactly when the selected text is empty, with `TitleNotFound` naming the title selector; otherwise returns the normalised, non-empty title |
| Pages.SrcAttrs | main.go:62-69 | visiting the matched elements in turn gives one string per element: its `src`, or `""` when it has none |
| Pages.GetImageSrcs | main.go:60-72 | one slot per matched element; slot *i* holds the element's `src` when it has one and `""` otherwise |
| Text.JoinSplit | main.go:85 | the pieces `strings.Split` returns, joined with the separator, give back the string |
| Text.Split | main.go:85 | `strings.Split` on one separator returns at least one piece, and no piece contains the separator |
| Text.LastPieceAfterLastSep | main.go:85-86 | the last piece of the split is a suffix of the string, holds no separator, and is either the whole string or preceded by a separator |
| Text.LastSegmentUnique | main.go:85-86 | only one string has those three properties, so they characterise the last piece |
| Text.LastSegment | main.go:86 | `paths[len(paths)-1]` is the text after the last separator in the sense above |
| Text.LastSegmentAfterSep | main.go:85-86 | in `dir + sep + file` with a separator-free `file`, the last segment is `file` |
| Download.Basename | main.go:85-86 | the image name is the text after the last `/` of the URL, and the whole URL when it has no `/` |
| Download.DownloadImage | main.go:74-92 | an empty `src` fails with `MissingSrc` whatever the request would answer. A non-empty one fails exactly when its request fails, and with the request's own error. Success carries the copied body and the basename |
| Text.Itoa | main.go:126 | `strconv.Itoa` of an index is a non-empty string of decimal digits without a leading zero |
| Text.AtoiItoa | main.go:126 | reading the decimal notation of *n* back gives *n* |
| Text.ItoaInjective | main.go:126 | distinct indices have distinct decimal notations |
| Text.BeforeFirst | main.go:126 | the text before the first delimiter is a delimiter-free prefix, followed by the delimiter when shorter than the string |
| Text.BeforeFirstOfConcat | main.go:126 | for a delimiter-free head, `head + delim + rest` reads back as exactly `head` |
| Download.EntryName | main.go:126-127 | entry name *i* is `Itoa(i)`, a `-`, then the image's own name: the text before its first `-` is `Itoa(i)`, and the name follows that `-` |
| Download.EntryNamePrefix | main.go:126-127 | entry name *i* reads back as position *i* |
| Download.EntryNamesDistinct | main.go:126-127 | images at distinct positions get distinct entry names, whatever their URLs |
| Download.NamedImage | main.go:117-131 | task *i* makes its own request and succeeds exactly when `downloadImage` does. It then hands over the copied body named `Itoa(i) + "-" + basename` |
| Download.ExpectedContents | main.go:115-131 | listed by position, image *i* is source *i*'s body under entry name *i*, and the name prefixes read back as 0..n-1 in order |
| Permutation.ArrivalOrderBounds | main.go:113-134 | an arrival order has one entry per launched task, each a task index, and every task arrives |
| Permutation.Reindex | main.go:101-107 | listing elements in an arrival order yields each element exactly as often as the position-ordered list |
| Permutation.DistinctByMultiset | main.go:126-127 | a list with the same elements as a duplicate-free list has no duplicates |
| Download.ArrangePermutes | main.go:101-107 | `Arrange` defines the append order: the *k*-th image appended is that of task `order[k]`. Whatever the arrival order, the aggregated images and their position prefixes are a permutation of the position-ordered ones |
| Download.NamesDistinctByPrefix | main.go:126-127 | images whose position prefixes are pairwise distinct have pairwise distinct names |
| Download.CollectedAll | main.go:101-134 | if every arrival delivered its task's image, every task succeeded, and the list is the position-ordered list in arrival order: one image per source, each position prefix once, distinct names |
| Download.DownloadImages | main.go:94-138 | succeeds exactly when every task succeeds, returning `len(srcs)` images: the position-ordered images in arrival order, each position prefix exactly once, with distinct names. Otherwise it fails with the error of the first failing task to arrive |
| Scrape.DownloadPath | main.go:148 | for a title without `/`, the archive path is directly inside `downloads/`, and its last segment is `title + ".zip"` |
| Scrape.Save | main.go:140-161 | succeeds exactly when creating the directory, creating `downloads/<title>.zip` and writing all succeed, and then reports that path and the archive's length. Otherwise it fails with the first failing step's error |
| Scrape.Scrape | main.go:184-209 | returns the document error, else the title error, else the zip error. A failed download ends the process with the error of the first failing task to arrive. A failed save returns nil. Otherwise the archive is written to `downloads/<title>.zip` |

## Left out

- HTTP: `GetDocument` (main.go:46-58) and the `http.Get` and `io.Copy` in `downloadImage` are network I/O. They become the parameters `Env.getDocument` and `Fetch`. A request's answer is the bytes copied or `http.Get`'s own error. The error of `io.Copy` is discarded by the program (main.go:83), so a truncated body counts as a success, and the model does the same. Closing the response bodies is not modelled.
- The document-query library (`doc.Find`, `.Text()`, `.Attr`) is a foreign library; a `Document` maps a selector to what it would report.
- Goroutines, channels, `select` and `sync.WaitGroup` in `downloadImages` are replaced by an arrival-order parameter. Interleavings beyond the order of arrival are not modelled.
- `log.Fatal` ending the process is modelled as the `Exited` outcome. Its effect on other pages being scraped at the same time is not modelled.
- `createZip` (main.go:163-182): the zip format of `archive/zip` is not shown and its central directory is written by a deferred `Close`; the zip writer is the parameter `Env.createZip`, so the archive's entries and their round trip are not modelled.
- `save`'s `os.MkdirAll`, `os.Create` and `f.Write` are file-system I/O; they become `FileSystem` answers, and only the path and byte count are kept.
- `main` (TOML configuration, launching the browser with `exec.Command`) and `cli` (the stdin loop; its `len(url) < 0` test at main.go:220 can never hold) are process control and interactive I/O.
- `log.Println` progress output.
- Strings are sequences of characters rather than bytes. Every character the code looks at (`/`, space, `-`, digits) is one ASCII byte, so the names agree.
- The error texts main.go builds (main.go:41 and 91) are not modelled. The errors are the variants `TitleNotFound(selector)` and `MissingSrc`.
