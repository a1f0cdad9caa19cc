/** The values that flow through main.go's scraping pipeline. */
module Types {
  import opened Wrappers

  type Bytes = seq<bv8>

  /** One archive entry in the making: `type Image struct { Name; Bytes }`. */
  datatype Image = Image(name: string, bytes: Bytes)

  /** One configured page: where it lives and the selectors of its title and images. */
  datatype Page = Page(url: string, titleSelector: string, imageSelector: string)

  /**
   * A parsed document, seen through the document-query library: for a selector,
   * the text of the matched elements, and for each matched element the value of
   * its `src` attribute when it has one.
   */
  datatype Document = Document(
    text: string -> string,
    srcAttrs: string -> seq<Option<string>>)

  /** The errors the pipeline produces or passes on. */
  datatype Error =
    | TitleNotFound(selector: string)   // GetTitle found only an empty title
    | MissingSrc                         // an <img> without a src attribute
    | External(message: string)          // reported by a collaborator: HTTP, parser, zip, file system
}
