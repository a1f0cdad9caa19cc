/** The page-level queries of main.go: the archive title and the image sources. */
module Pages {
  import opened Wrappers
  import opened Types
  import opened Text

  /** The title with every '/' and then every ' ' replaced by '_'. */
  function NormalizeTitle(text: string): (title: string)
    ensures |title| == |text|
    ensures '/' !in title && ' ' !in title
    ensures forall i :: 0 <= i < |text| && text[i] != '/' && text[i] != ' ' ==> title[i] == text[i]
    ensures forall i :: 0 <= i < |text| && (text[i] == '/' || text[i] == ' ') ==> title[i] == '_'
  {
    ReplaceAll(ReplaceAll(text, '/', '_'), ' ', '_')
  }

  /** Normalising an already normalised title changes nothing. */
  lemma NormalizeTitleIdempotent(text: string)
    ensures NormalizeTitle(NormalizeTitle(text)) == NormalizeTitle(text)
  {
  }

  /**
   * Page.GetTitle: `selected` is the text the document holds under the page's
   * title selector. An empty normalised title is an error naming the selector.
   */
  function GetTitle(page: Page, selected: string): (r: Result<string, Error>)
    ensures r.Failure? <==> selected == ""
    ensures r.Failure? ==> r.error == TitleNotFound(page.titleSelector)
    ensures r.Success? ==> r.value == NormalizeTitle(selected) && r.value != ""
  {
    var title := NormalizeTitle(selected);
    if |title| < 1 then Failure(TitleNotFound(page.titleSelector))
    else Success(title)
  }

  /** The matched elements visited one after another, each giving its src or,
      when it has none, the zero string. */
  function SrcAttrs(attrs: seq<Option<string>>): (srcs: seq<string>)
    ensures |srcs| == |attrs|
    ensures forall i :: 0 <= i < |attrs| ==> attrs[i].Some? ==> srcs[i] == attrs[i].value
    ensures forall i :: 0 <= i < |attrs| ==> attrs[i].None? ==> srcs[i] == ""
  {
    if attrs == [] then []
    else [attrs[0].GetOr("")] + SrcAttrs(attrs[1..])
  }

  /**
   * Page.GetImageSrcs: one slot per matched element, allocated empty, and slot i
   * overwritten with element i's src when the element has one.
   */
  method GetImageSrcs(attrs: seq<Option<string>>) returns (srcs: seq<string>)
    ensures |srcs| == |attrs|
    ensures forall i :: 0 <= i < |attrs| ==> attrs[i].Some? ==> srcs[i] == attrs[i].value
    ensures forall i :: 0 <= i < |attrs| ==> attrs[i].None? ==> srcs[i] == ""
    ensures srcs == SrcAttrs(attrs)
  {
    var results := new string[|attrs|](_ => "");
    var i := 0;
    while i < |attrs|
      invariant 0 <= i <= |attrs|
      invariant forall j :: 0 <= j < i ==> results[j] == attrs[j].GetOr("")
      invariant forall j :: i <= j < |attrs| ==> results[j] == ""
    {
      if attrs[i].Some? {
        results[i] := attrs[i].value;
      }
      i := i + 1;
    }
    srcs := results[..];
  }
}
