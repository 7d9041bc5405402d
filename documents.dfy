/** The decoded archive and the already-parsed views of its markup documents.
    Zip decompression and markup parsing are foreign code: the archive is a
    map from entry path to bytes, and the parsers are given as functions. */
module Documents {
  import opened Wrappers

  type Byte = bv8
  type Bytes = seq<Byte>

  /** Entry path to entry contents; lookups are exact and case-sensitive. */
  type Archive = map<string, Bytes>

  /** The first `rootfile` element of the container document. */
  datatype Rootfile = Rootfile(fullPath: Option<string>)

  /** `META-INF/container.xml` as the reader queries it. */
  datatype ContainerDoc = ContainerDoc(rootfile: Option<Rootfile>)

  /** A `manifest item` element's attributes, each possibly absent. */
  datatype Item = Item(id: Option<string>, href: Option<string>, mediaType: Option<string>)

  /** The package document as the reader queries it: the text of the first
      `title` and the first `creator` element (absent when there is no such
      element), the `manifest item` elements and the `idref` attribute of
      every `spine itemref` element, all in document order. */
  datatype PackageDoc = PackageDoc(
    title: Option<string>,
    creator: Option<string>,
    items: seq<Item>,
    itemrefs: seq<Option<string>>)

  /** A chapter as the reader queries it: the inner markup of its `body`
      element (absent when there is none) and the `src` attribute of every
      `img` element in document order (absent when an image has none). */
  datatype ChapterDoc = ChapterDoc(body: Option<string>, images: seq<Option<string>>)

  /** The foreign code the reader calls: reading an entry as text, and
      parsing the three kinds of document. */
  datatype Host = Host(
    readText: Bytes -> string,
    parseContainer: string -> ContainerDoc,
    parsePackage: string -> PackageDoc,
    parseChapter: string -> ChapterDoc)

  /** JavaScript truthiness of an attribute or text value: present and not
      the empty string. */
  predicate Present(v: Option<string>)
  {
    v.Some? && v.value != ""
  }

  /** `v || fallback` for a string value that may be absent. */
  function OrElse(v: Option<string>, fallback: string): string
  {
    if Present(v) then v.value else fallback
  }
}
