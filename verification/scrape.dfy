/**
 * save and scrape: persist the archive under a name derived from the title, and
 * the early-return chain that runs one page through the whole pipeline.
 */
module Scrape {
  import opened Wrappers
  import opened Types
  import opened Text
  import opened Permutation
  import opened Pages
  import opened Download

  /** The directory every archive is written to. */
  const DownloadsDir: string := "downloads"

  /** The file-system calls save makes, each answering with an error or nil. */
  datatype FileSystem = FileSystem(
    mkdirAll: string -> Option<Error>,
    create: string -> Option<Error>,
    write: (string, Bytes) -> Option<Error>)

  /** A completed save: the file written and the number of bytes written to it. */
  datatype Written = Written(path: string, count: nat)

  /** The archive file of a title: `"downloads/" + title + ".zip"`. A title
      without '/' lands directly in the downloads directory, in a file named
      after the title. */
  function DownloadPath(title: string): (path: string)
    ensures '/' !in title ==> Basename(path) == title + ".zip"
    ensures '/' !in title ==> path == DownloadsDir + "/" + Basename(path)
  {
    var file := title + ".zip";
    var path := DownloadsDir + "/" + file;
    if '/' in title then path
    else
      assert '/' !in file;
      LastSegmentAfterSep(DownloadsDir, '/', file);
      path
  }

  /**
   * save: create the downloads directory, create the archive file, write the
   * archive into it. The first step that fails decides the error; on success
   * the whole archive has been written to DownloadPath(title).
   */
  function Save(title: string, zip: Bytes, fs: FileSystem): (r: Result<Written, Error>)
    ensures r.Success? <==>
      fs.mkdirAll(DownloadsDir).None? && fs.create(DownloadPath(title)).None? &&
      fs.write(DownloadPath(title), zip).None?
    ensures r.Success? ==> r.value == Written(DownloadPath(title), |zip|)
    ensures fs.mkdirAll(DownloadsDir).Some? ==> r == Failure(fs.mkdirAll(DownloadsDir).value)
    ensures fs.mkdirAll(DownloadsDir).None? && fs.create(DownloadPath(title)).Some? ==>
      r == Failure(fs.create(DownloadPath(title)).value)
    ensures (fs.mkdirAll(DownloadsDir).None? && fs.create(DownloadPath(title)).None? &&
             fs.write(DownloadPath(title), zip).Some?) ==>
      r == Failure(fs.write(DownloadPath(title), zip).value)
  {
    var path := DownloadPath(title);
    if fs.mkdirAll(DownloadsDir).Some? then Failure(fs.mkdirAll(DownloadsDir).value)
    else if fs.create(path).Some? then Failure(fs.create(path).value)
    else if fs.write(path, zip).Some? then Failure(fs.write(path, zip).value)
    else Success(Written(path, |zip|))
  }

  /** What scrape depends on besides the page: the document fetch and parse, the
      image fetch, the zip writer and the file system. */
  datatype Env = Env(
    getDocument: string -> Result<Document, Error>,
    fetch: Fetch,
    createZip: seq<Image> -> Result<Bytes, Error>,
    fs: FileSystem)

  /** How one scrape ends: it returns an error or nil (and may have written an
      archive), or a download failure ends the process through log.Fatal. */
  datatype Outcome =
    | Returned(err: Option<Error>, saved: Option<Written>)
    | Exited(reason: Error)

  /** The title the page's document yields. */
  function TitleOf(page: Page, doc: Document): Result<string, Error>
  {
    GetTitle(page, doc.text(page.titleSelector))
  }

  /** The image sources the page's document yields. */
  function SourcesOf(page: Page, doc: Document): seq<string>
  {
    SrcAttrs(doc.srcAttrs(page.imageSelector))
  }

  /** The document, the title and every image were obtained. */
  predicate Downloaded(page: Page, url: string, env: Env)
  {
    && env.getDocument(url).Success?
    && TitleOf(page, env.getDocument(url).value).Success?
    && AllSucceed(SourcesOf(page, env.getDocument(url).value), env.fetch)
  }

  /** The zip writer's answer for the images in the order they arrived. */
  function ArchiveOf(page: Page, url: string, env: Env, arrival: seq<nat>): Result<Bytes, Error>
    requires Downloaded(page, url, env)
    requires IsArrivalOrder(arrival, |SourcesOf(page, env.getDocument(url).value)|)
  {
    var srcs := SourcesOf(page, env.getDocument(url).value);
    env.createZip(Arrange(Expected(srcs, env.fetch), arrival))
  }

  /**
   * scrape: fetch the document, take its title, collect its images, zip them
   * and save the zip. The first failing step among the document, the title
   * and the zip is returned; a failing download ends the process. A failing
   * save is not reported: scrape then returns the zip step's error, which is
   * nil at that point.
   */
  method Scrape(page: Page, url: string, env: Env, arrival: seq<nat>) returns (r: Outcome)
    requires env.getDocument(url).Success? ==>
      IsArrivalOrder(arrival, |SourcesOf(page, env.getDocument(url).value)|)
    ensures env.getDocument(url).Failure? ==> r == Returned(Some(env.getDocument(url).error), None)
    ensures env.getDocument(url).Success? && TitleOf(page, env.getDocument(url).value).Failure? ==>
      r == Returned(Some(TitleNotFound(page.titleSelector)), None)
    ensures r.Exited? <==>
      env.getDocument(url).Success? && TitleOf(page, env.getDocument(url).value).Success? &&
      !AllSucceed(SourcesOf(page, env.getDocument(url).value), env.fetch)
    ensures r.Exited? ==>
      var srcs := SourcesOf(page, env.getDocument(url).value);
      exists k: nat :: FirstFailureAt(srcs, env.fetch, arrival, k) &&
        NamedImage(arrival[k], srcs[arrival[k]], env.fetch) == Failure(r.reason)
    ensures Downloaded(page, url, env) && ArchiveOf(page, url, env, arrival).Failure? ==>
      r == Returned(Some(ArchiveOf(page, url, env, arrival).error), None)
    ensures Downloaded(page, url, env) && ArchiveOf(page, url, env, arrival).Success? ==>
      var title := TitleOf(page, env.getDocument(url).value).value;
      var zip := ArchiveOf(page, url, env, arrival).value;
      r == (if Save(title, zip, env.fs).Success?
            then Returned(None, Some(Written(DownloadPath(title), |zip|)))
            else Returned(None, None))
    ensures r.Returned? && r.saved.Some? ==>
      r.err.None? && Downloaded(page, url, env) &&
      r.saved.value.path == DownloadsDir + "/" + TitleOf(page, env.getDocument(url).value).value + ".zip" &&
      Basename(r.saved.value.path) == TitleOf(page, env.getDocument(url).value).value + ".zip"
  {
    var doc := env.getDocument(url);
    if doc.Failure? {
      return Returned(Some(doc.error), None);
    }
    var title := GetTitle(page, doc.value.text(page.titleSelector));
    if title.Failure? {
      return Returned(Some(title.error), None);
    }
    var srcs := GetImageSrcs(doc.value.srcAttrs(page.imageSelector));
    var images := DownloadImages(srcs, env.fetch, arrival);
    if images.Failure? {
      return Exited(images.error);
    }
    var zip := env.createZip(images.value);
    if zip.Failure? {
      return Returned(Some(zip.error), None);
    }
    var err: Option<Error> := None;
    var saved := Save(title.value, zip.value, env.fs);
    if saved.Failure? {
      return Returned(err, None);
    }
    r := Returned(None, Some(saved.value));
  }
}
