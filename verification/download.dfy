/**
 * downloadImage and downloadImages: fetch every image source, name each image
 * after its position and its URL's last path segment, and gather the named
 * images in a list owned by one aggregator.
 *
 * The goroutines, channels and wait group are replaced by their sequential
 * meaning: the aggregator receives the images in an arrival order, a
 * permutation of the task indices chosen by the scheduler (a parameter here),
 * and the first task to fail in that order ends the run.
 */
module Download {
  import opened Wrappers
  import opened Types
  import opened Text
  import opened Permutation

  /** One HTTP GET of an image and the copy of its body: the bytes copied, or
      the request's own error. */
  type Get = string -> Result<Bytes, Error>

  /** The requests of the download tasks: `fetch(i)` is the GET issued by the
      task of position i, so two positions with the same URL make two
      independent requests. */
  type Fetch = nat -> Get

  /** The file name of an image: the text after the last '/' of its URL. */
  function Basename(src: string): (name: string)
    ensures IsLastSegment(src, '/', name)
    ensures '/' !in src ==> name == src
  {
    LastSegment(src, '/')
  }

  /**
   * downloadImage: an empty src is refused before any request is made; a
   * non-empty one is fetched, and only a failed fetch makes it an error.
   */
  function DownloadImage(src: string, get: Get): (r: Result<Image, Error>)
    ensures src == "" ==> r == Failure(MissingSrc)
    ensures src != "" ==> (r.Success? <==> get(src).Success?)
    ensures src != "" && get(src).Failure? ==> r == Failure(get(src).error)
    ensures r.Success? ==> r.value.bytes == get(src).value
    ensures r.Success? ==> IsLastSegment(src, '/', r.value.name)
  {
    if 0 < |src| then
      match get(src)
      case Failure(e) => Failure(e)
      case Success(body) => Success(Image(Basename(src), body))
    else
      Failure(MissingSrc)
  }

  /** The archive entry name of the image at position i: `Itoa(i) + "-" + name`.
      Its text before the first '-' is the decimal position, and the image's
      own name follows that '-'. */
  function EntryName(i: nat, name: string): (entry: string)
    ensures |entry| == |Itoa(i)| + 1 + |name|
    ensures BeforeFirst(entry, '-') == Itoa(i)
    ensures entry[|Itoa(i)| + 1..] == name
  {
    var digits := Itoa(i);
    assert forall k :: 0 <= k < |digits| ==> digits[k] != '-';
    BeforeFirstOfConcat(digits, '-', name);
    digits + "-" + name
  }

  /** The position an entry name starts with, read back from the text before its first '-'. */
  function IndexPrefix(name: string): Option<nat>
  {
    var head := BeforeFirst(name, '-');
    if head != "" && AllDigits(head) then Some(Atoi(head)) else None
  }

  /** The entry name of position i reads back as i. */
  lemma EntryNamePrefix(i: nat, name: string)
    ensures IndexPrefix(EntryName(i, name)) == Some(i)
  {
    AtoiItoa(i);
  }

  /** Images at distinct positions get distinct entry names, whatever their URLs. */
  lemma EntryNamesDistinct(i: nat, j: nat, a: string, b: string)
    requires i != j
    ensures EntryName(i, a) != EntryName(j, b)
  {
    EntryNamePrefix(i, a);
    EntryNamePrefix(j, b);
  }

  /** What the task for position i hands to the aggregator, or the error it dies with. */
  function NamedImage(i: nat, src: string, fetch: Fetch): (r: Result<Image, Error>)
    ensures r.Success? <==> DownloadImage(src, fetch(i)).Success?
    ensures r.Failure? ==> r == DownloadImage(src, fetch(i))
    ensures r.Success? ==> r.value.name == EntryName(i, Basename(src))
    ensures r.Success? ==> r.value.bytes == fetch(i)(src).value
  {
    match DownloadImage(src, fetch(i))
    case Failure(e) => Failure(e)
    case Success(image) =>
      LastSegmentUnique(src, '/', image.name, Basename(src));
      Success(image.(name := EntryName(i, image.name)))
  }

  /** Every task completes without error. */
  predicate AllSucceed(srcs: seq<string>, fetch: Fetch)
  {
    forall i :: 0 <= i < |srcs| ==> NamedImage(i, srcs[i], fetch).Success?
  }

  /** The named images listed by position, when every task succeeds. */
  function Expected(srcs: seq<string>, fetch: Fetch): (images: seq<Image>)
    requires AllSucceed(srcs, fetch)
  {
    seq(|srcs|, i requires 0 <= i < |srcs| => NamedImage(i, srcs[i], fetch).value)
  }

  /** The entry names of the images, each read back as a position. */
  function IndexPrefixes(images: seq<Image>): (prefixes: seq<Option<nat>>)
    ensures |prefixes| == |images|
  {
    seq(|images|, k requires 0 <= k < |images| => IndexPrefix(images[k].name))
  }

  /** Some(0), Some(1), ..., Some(n - 1). */
  function Positions(n: nat): (ps: seq<Option<nat>>)
    ensures |ps| == n && Distinct(ps)
  {
    seq(n, i requires 0 <= i < n => Some(i))
  }

  /** Listed by position, image i carries the name and body of source i, and
      its name reads back as i. */
  lemma ExpectedContents(srcs: seq<string>, fetch: Fetch)
    requires AllSucceed(srcs, fetch)
    ensures |Expected(srcs, fetch)| == |srcs|
    ensures forall i :: 0 <= i < |srcs| ==>
      Expected(srcs, fetch)[i] == Image(EntryName(i, Basename(srcs[i])), fetch(i)(srcs[i]).value)
    ensures IndexPrefixes(Expected(srcs, fetch)) == Positions(|srcs|)
  {
    var images := Expected(srcs, fetch);
    forall i | 0 <= i < |srcs| ensures IndexPrefixes(images)[i] == Some(i) {
      assert NamedImage(i, srcs[i], fetch).Success?;
      EntryNamePrefix(i, Basename(srcs[i]));
    }
  }

  /** The images as they reach the aggregator: the k-th to arrive is task order[k]'s. */
  function Arrange(images: seq<Image>, order: seq<nat>): (arrived: seq<Image>)
    requires IsArrivalOrder(order, |images|)
    ensures |arrived| == |order| == |images|
    ensures forall k :: 0 <= k < |order| ==> order[k] < |images| && arrived[k] == images[order[k]]
  {
    ArrivalOrderBounds(order, |images|);
    seq(|order|, k requires 0 <= k < |order| => images[order[k]])
  }

  /** The k-th task to arrive is the first in arrival order that fails. */
  predicate FirstFailureAt(srcs: seq<string>, fetch: Fetch, order: seq<nat>, k: nat)
  {
    && k < |order|
    && (forall l :: 0 <= l <= k ==> order[l] < |srcs|)
    && NamedImage(order[k], srcs[order[k]], fetch).Failure?
    && (forall l :: 0 <= l < k ==> NamedImage(order[l], srcs[order[l]], fetch).Success?)
  }

  /** Any arrival order yields each image, and each position prefix, exactly once. */
  lemma ArrangePermutes(images: seq<Image>, order: seq<nat>)
    requires IsArrivalOrder(order, |images|)
    ensures multiset(Arrange(images, order)) == multiset(images)
    ensures multiset(IndexPrefixes(Arrange(images, order))) == multiset(IndexPrefixes(images))
  {
    var arrived := Arrange(images, order);
    Reindex(images, order, arrived);
    Reindex(IndexPrefixes(images), order, IndexPrefixes(arrived));
  }

  /** Entry names whose prefixes are pairwise distinct are pairwise distinct. */
  lemma NamesDistinctByPrefix(images: seq<Image>)
    requires Distinct(IndexPrefixes(images))
    ensures forall k, l :: 0 <= k < l < |images| ==> images[k].name != images[l].name
  {
    forall k, l | 0 <= k < l < |images| ensures images[k].name != images[l].name {
      assert IndexPrefixes(images)[k] != IndexPrefixes(images)[l];
    }
  }

  /** An aggregated list holding, at each arrival position, the image of the task
      that arrived there is the position-ordered list up to that reordering: one
      image per source, every position prefix once, pairwise distinct names. */
  lemma CollectedAll(srcs: seq<string>, fetch: Fetch, order: seq<nat>, xs: seq<Image>)
    requires IsArrivalOrder(order, |srcs|)
    requires |xs| == |order|
    requires forall l :: 0 <= l < |order| ==>
      order[l] < |srcs| && NamedImage(order[l], srcs[order[l]], fetch) == Success(xs[l])
    ensures AllSucceed(srcs, fetch)
    ensures |xs| == |srcs| && xs == Arrange(Expected(srcs, fetch), order)
    ensures multiset(xs) == multiset(Expected(srcs, fetch))
    ensures multiset(IndexPrefixes(xs)) == multiset(Positions(|srcs|))
    ensures forall k, l :: 0 <= k < l < |xs| ==> xs[k].name != xs[l].name
  {
    ArrivalOrderBounds(order, |srcs|);
    assert AllSucceed(srcs, fetch) by {
      forall i | 0 <= i < |srcs| ensures NamedImage(i, srcs[i], fetch).Success? {
        assert i in order;
        var l :| 0 <= l < |order| && order[l] == i;
      }
    }
    var expected := Expected(srcs, fetch);
    assert xs == Arrange(expected, order);
    ArrangePermutes(expected, order);
    ExpectedContents(srcs, fetch);
    DistinctByMultiset(IndexPrefixes(xs), Positions(|srcs|));
    NamesDistinctByPrefix(xs);
  }

  /**
   * downloadImages. The tasks finish in the order `order`; the aggregator
   * appends each arriving image to its list. If some task fails, the process
   * dies with that task's error and no list is produced: the returned error is
   * that of the first failing task to arrive. Otherwise the list holds one image
   * per source, every position prefix exactly once, with distinct names.
   */
  method DownloadImages(srcs: seq<string>, fetch: Fetch, order: seq<nat>)
    returns (r: Result<seq<Image>, Error>)
    requires IsArrivalOrder(order, |srcs|)
    ensures r.Success? <==> AllSucceed(srcs, fetch)
    ensures r.Failure? ==>
      exists k: nat :: FirstFailureAt(srcs, fetch, order, k) && NamedImage(order[k], srcs[order[k]], fetch) == Failure(r.error)
    ensures r.Success? ==> |r.value| == |srcs| && r.value == Arrange(Expected(srcs, fetch), order)
    ensures r.Success? ==> multiset(r.value) == multiset(Expected(srcs, fetch))
    ensures r.Success? ==> multiset(IndexPrefixes(r.value)) == multiset(Positions(|srcs|))
    ensures r.Success? ==> forall k, l :: 0 <= k < l < |r.value| ==> r.value[k].name != r.value[l].name
  {
    ArrivalOrderBounds(order, |srcs|);
    var xs: seq<Image> := [];
    var k := 0;
    while k < |order|
      invariant 0 <= k <= |order| && |xs| == k
      invariant forall l :: 0 <= l < k ==> NamedImage(order[l], srcs[order[l]], fetch) == Success(xs[l])
    {
      var i := order[k];
      var src := srcs[i];
      var image := DownloadImage(src, fetch(i));
      if image.Failure? {
        r := Failure(image.error);
        return;
      }
      xs := xs + [image.value.(name := EntryName(i, image.value.name))];
      k := k + 1;
    }
    CollectedAll(srcs, fetch, order, xs);
    r := Success(xs);
  }
}
