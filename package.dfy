/** The package parser (`parseEPUB`, components/epub-viewer.tsx:90-145):
    container document, package document, metadata, manifest and spine. */
module Package {
  import opened Wrappers
  import opened Strings
  import opened Documents
  import opened Paths

  /** The fixed location of the container document. */
  const ContainerPath := "META-INF/container.xml"

  /** The hard failures of `parseEPUB`, in the order it checks them. */
  datatype ParseError = MissingContainer | MissingRootfile | MissingOpfPath | MissingOpfFile

  /** The message of the error thrown for each failure. */
  function ErrorMessage(e: ParseError): string
  {
    match e
    case MissingContainer => "Invalid EPUB: Missing container.xml"
    case MissingRootfile => "Invalid EPUB: Missing rootfile"
    case MissingOpfPath => "Invalid EPUB: Missing OPF path"
    case MissingOpfFile => "Invalid EPUB: Missing OPF file"
  }

  /** What the manifest records for an id. */
  datatype ManifestEntry = ManifestEntry(href: string, mediaType: string)

  type Manifest = map<string, ManifestEntry>

  /** A chapter: its path inside the archive (the archive it refers to is
      the one the session holds). */
  datatype Chapter = Chapter(path: string)

  datatype Metadata = Metadata(title: string, author: string)

  /** What a successful parse yields. */
  datatype Book = Book(metadata: Metadata, chapters: seq<Chapter>, opfDir: string)

  /** Title and author, each defaulting when its element is absent or its
      text is empty. */
  function MetadataOf(pkg: PackageDoc): (md: Metadata)
    ensures md.title != "" && md.author != ""
    ensures Present(pkg.title) ==> md.title == pkg.title.value
    ensures !Present(pkg.title) ==> md.title == "Unknown Title"
    ensures Present(pkg.creator) ==> md.author == pkg.creator.value
    ensures !Present(pkg.creator) ==> md.author == "Unknown Author"
  {
    Metadata(OrElse(pkg.title, "Unknown Title"), OrElse(pkg.creator, "Unknown Author"))
  }

  /** The manifest entry an item contributes; missing attributes become "". */
  function EntryOf(item: Item): ManifestEntry
  {
    ManifestEntry(OrElse(item.href, ""), OrElse(item.mediaType, ""))
  }

  /** One step of filling the manifest: an item without an id is ignored,
      one with an id (over)writes that id. */
  function AddItem(m: Manifest, item: Item): Manifest
  {
    if Present(item.id) then m[item.id.value := EntryOf(item)] else m
  }

  /** The manifest after visiting `items` in document order. */
  function BuildManifest(items: seq<Item>): Manifest
    decreases |items|
  {
    if |items| == 0 then map[] else AddItem(BuildManifest(items[..|items| - 1]), items[|items| - 1])
  }

  /** The manifest entry an itemref designates, if any. */
  function Lookup(m: Manifest, idref: Option<string>): Option<ManifestEntry>
  {
    if Present(idref) && idref.value in m then Some(m[idref.value]) else None
  }

  /** The chapter one itemref contributes: none, or the package directory
      followed by the manifest href, with no normalisation. */
  function SpineStep(opfDir: string, m: Manifest, idref: Option<string>): seq<Chapter>
  {
    match Lookup(m, idref)
    case Some(e) => [Chapter(opfDir + e.href)]
    case None => []
  }

  /** The chapter list: the spine's itemrefs in order, each contributing its
      chapter or nothing. */
  function SpineChapters(opfDir: string, m: Manifest, idrefs: seq<Option<string>>): seq<Chapter>
    decreases |idrefs|
  {
    if |idrefs| == 0 then [] else SpineStep(opfDir, m, idrefs[0]) + SpineChapters(opfDir, m, idrefs[1..])
  }

  /** The package document's path, or the failure met while finding it. */
  function OpfPath(zip: Archive, host: Host): Result<string, ParseError>
  {
    if ContainerPath !in zip then Err(MissingContainer)
    else
      var container := host.parseContainer(host.readText(zip[ContainerPath]));
      if container.rootfile.None? then Err(MissingRootfile)
      else if !Present(container.rootfile.value.fullPath) then Err(MissingOpfPath)
      else Ok(container.rootfile.value.fullPath.value)
  }

  /** The package document as parsed; only meaningful once the path is known
      and present in the archive. */
  function PackageOf(zip: Archive, host: Host, opfPath: string): PackageDoc
    requires opfPath in zip
  {
    host.parsePackage(host.readText(zip[opfPath]))
  }

  /** What `parseEPUB` returns or throws. */
  function Parse(zip: Archive, host: Host): (r: Result<Book, ParseError>)
    ensures OpfPath(zip, host).Err? ==> r == Err(OpfPath(zip, host).error)
    ensures OpfPath(zip, host).Ok? && OpfPath(zip, host).value !in zip ==> r == Err(MissingOpfFile)
    ensures r.Ok? <==> OpfPath(zip, host).Ok? && OpfPath(zip, host).value in zip
  {
    match OpfPath(zip, host)
    case Err(e) => Err(e)
    case Ok(opfPath) =>
      var opfDir := Dir(opfPath);
      if opfPath !in zip then Err(MissingOpfFile)
      else
        var pkg := PackageOf(zip, host, opfPath);
        Ok(Book(MetadataOf(pkg), SpineChapters(opfDir, BuildManifest(pkg.items), pkg.itemrefs), opfDir))
  }

  /** The first three failures, in the order they are checked: the
      container entry, its rootfile element, the rootfile's `full-path`. */
  lemma ParseFailureOrder(zip: Archive, host: Host)
    ensures ContainerPath !in zip ==> Parse(zip, host) == Err(MissingContainer)
    ensures ContainerPath in zip ==>
      var container := host.parseContainer(host.readText(zip[ContainerPath]));
      && (container.rootfile.None? ==> Parse(zip, host) == Err(MissingRootfile))
      && (container.rootfile.Some? && !Present(container.rootfile.value.fullPath) ==>
            Parse(zip, host) == Err(MissingOpfPath))
  {
  }

  /** `parseEPUB` as the source runs it: four checks, then two `forEach`
      loops filling the manifest and the chapter list. */
  method ParseEpub(zip: Archive, host: Host) returns (r: Result<Book, ParseError>)
    ensures r == Parse(zip, host)
  {
    if ContainerPath !in zip {
      return Err(MissingContainer);
    }
    var containerXml := host.readText(zip[ContainerPath]);
    var containerDoc := host.parseContainer(containerXml);
    if containerDoc.rootfile.None? {
      return Err(MissingRootfile);
    }
    var opfPath := containerDoc.rootfile.value.fullPath;
    if !Present(opfPath) {
      return Err(MissingOpfPath);
    }
    var opfDir := Dir(opfPath.value);
    if opfPath.value !in zip {
      return Err(MissingOpfFile);
    }
    var opfContent := host.readText(zip[opfPath.value]);
    var opfDoc := host.parsePackage(opfContent);
    var metadata := Metadata(OrElse(opfDoc.title, "Unknown Title"), OrElse(opfDoc.creator, "Unknown Author"));

    var items := opfDoc.items;
    var manifest: Manifest := map[];
    for i := 0 to |items|
      invariant manifest == BuildManifest(items[..i])
    {
      assert items[..i + 1][..i] == items[..i];
      var item := items[i];
      var id := item.id;
      if Present(id) {
        manifest := manifest[id.value := ManifestEntry(OrElse(item.href, ""), OrElse(item.mediaType, ""))];
      }
    }
    assert items[..|items|] == items;

    var itemrefs := opfDoc.itemrefs;
    var chaptersData: seq<Chapter> := [];
    for i := 0 to |itemrefs|
      invariant chaptersData == SpineChapters(opfDir, manifest, itemrefs[..i])
    {
      var idref := itemrefs[i];
      SpineAppend(opfDir, manifest, itemrefs[..i], idref);
      assert itemrefs[..i + 1] == itemrefs[..i] + [idref];
      if Present(idref) && idref.value in manifest {
        chaptersData := chaptersData + [Chapter(opfDir + manifest[idref.value].href)];
      }
    }
    assert itemrefs[..|itemrefs|] == itemrefs;
    return Ok(Book(metadata, chaptersData, opfDir));
  }

  /** After a successful parse: the package directory is that of the package
      path, the chapter list is the spine's over the package's manifest, so
      there are at most as many chapters as itemrefs, and every chapter path
      starts with the package directory. */
  lemma ParsedBook(zip: Archive, host: Host)
    requires Parse(zip, host).Ok?
    ensures var opfPath := OpfPath(zip, host).value;
      var pkg := PackageOf(zip, host, opfPath);
      var book := Parse(zip, host).value;
      && book.opfDir == Dir(opfPath)
      && book.metadata == MetadataOf(pkg)
      && book.chapters == SpineChapters(book.opfDir, BuildManifest(pkg.items), pkg.itemrefs)
      && |book.chapters| <= |pkg.itemrefs|
      && forall c :: c in book.chapters ==> StartsWith(c.path, book.opfDir)
  {
    var opfPath := OpfPath(zip, host).value;
    var pkg := PackageOf(zip, host, opfPath);
    var book := Parse(zip, host).value;
    var m := BuildManifest(pkg.items);
    SpineLength(book.opfDir, m, pkg.itemrefs);
    forall c | c in book.chapters
      ensures StartsWith(c.path, book.opfDir)
    {
      SpineFromManifest(book.opfDir, m, pkg.itemrefs, c);
      var k :| 0 <= k < |pkg.itemrefs| && Present(pkg.itemrefs[k]) && pkg.itemrefs[k].value in m
        && c.path == book.opfDir + m[pkg.itemrefs[k].value].href;
      assert c.path[..|book.opfDir|] == book.opfDir;
    }
  }

  /** The chapter list of a concatenation of spines is the concatenation of
      their chapter lists: document order is kept. */
  lemma {:induction false} SpineConcat(opfDir: string, m: Manifest, a: seq<Option<string>>, b: seq<Option<string>>)
    ensures SpineChapters(opfDir, m, a + b) == SpineChapters(opfDir, m, a) + SpineChapters(opfDir, m, b)
    decreases |a|
  {
    if |a| == 0 {
      assert a + b == b;
    } else {
      assert (a + b)[0] == a[0];
      assert (a + b)[1..] == a[1..] + b;
      SpineConcat(opfDir, m, a[1..], b);
    }
  }

  /** Visiting one more itemref appends what it contributes. */
  lemma SpineAppend(opfDir: string, m: Manifest, a: seq<Option<string>>, idref: Option<string>)
    ensures SpineChapters(opfDir, m, a + [idref]) == SpineChapters(opfDir, m, a) + SpineStep(opfDir, m, idref)
  {
    SpineConcat(opfDir, m, a, [idref]);
    assert [idref][1..] == [];
  }

  /** There are never more chapters than itemrefs, and exactly as many when
      every itemref designates a manifest entry. */
  lemma {:induction false} SpineLength(opfDir: string, m: Manifest, idrefs: seq<Option<string>>)
    ensures |SpineChapters(opfDir, m, idrefs)| <= |idrefs|
    ensures |SpineChapters(opfDir, m, idrefs)| == |idrefs| <==>
      forall k :: 0 <= k < |idrefs| ==> Lookup(m, idrefs[k]).Some?
    decreases |idrefs|
  {
    if |idrefs| > 0 {
      SpineLength(opfDir, m, idrefs[1..]);
      assert forall k :: 1 <= k < |idrefs| ==> idrefs[k] == idrefs[1..][k - 1];
    }
  }

  /** When every itemref resolves, chapter k is the package directory
      followed by the href the manifest records for itemref k. */
  lemma {:induction false} SpineAllResolved(opfDir: string, m: Manifest, idrefs: seq<Option<string>>, k: nat)
    requires forall j :: 0 <= j < |idrefs| ==> Lookup(m, idrefs[j]).Some?
    requires k < |idrefs|
    ensures |SpineChapters(opfDir, m, idrefs)| == |idrefs|
    ensures SpineChapters(opfDir, m, idrefs)[k] == Chapter(opfDir + Lookup(m, idrefs[k]).value.href)
    decreases |idrefs|
  {
    SpineLength(opfDir, m, idrefs);
    if k > 0 {
      assert forall j :: 0 <= j < |idrefs[1..]| ==> idrefs[1..][j] == idrefs[j + 1];
      SpineAllResolved(opfDir, m, idrefs[1..], k - 1);
    }
  }

  /** Every chapter comes from an itemref whose idref the manifest holds:
      its path is the package directory followed by that entry's href.
      Unresolvable itemrefs contribute nothing. */
  lemma {:induction false} SpineFromManifest(opfDir: string, m: Manifest, idrefs: seq<Option<string>>, c: Chapter)
    requires c in SpineChapters(opfDir, m, idrefs)
    ensures exists k :: (0 <= k < |idrefs| && Present(idrefs[k]) && idrefs[k].value in m
      && c.path == opfDir + m[idrefs[k].value].href)
    decreases |idrefs|
  {
    if c !in SpineStep(opfDir, m, idrefs[0]) {
      SpineFromManifest(opfDir, m, idrefs[1..], c);
      var k :| 0 <= k < |idrefs[1..]| && Present(idrefs[1..][k]) && idrefs[1..][k].value in m
        && c.path == opfDir + m[idrefs[1..][k].value].href;
      assert idrefs[1..][k] == idrefs[k + 1];
    }
  }

  /** An id is in the manifest exactly when some item carries it. */
  lemma {:induction false} ManifestKeys(items: seq<Item>, id: string)
    ensures id in BuildManifest(items) <==>
      exists k :: 0 <= k < |items| && Present(items[k].id) && items[k].id.value == id
    decreases |items|
  {
    if |items| > 0 {
      var init := items[..|items| - 1];
      ManifestKeys(init, id);
      assert forall k :: 0 <= k < |init| ==> init[k] == items[k];
    }
  }

  /** A later item with the same id overwrites an earlier one: the entry for
      an id is that of the last item carrying it. */
  lemma {:induction false} ManifestLastWins(items: seq<Item>, k: nat)
    requires k < |items| && Present(items[k].id)
    requires forall j :: k < j < |items| ==> items[j].id != items[k].id
    ensures items[k].id.value in BuildManifest(items)
    ensures BuildManifest(items)[items[k].id.value] == EntryOf(items[k])
    decreases |items|
  {
    if k < |items| - 1 {
      var init := items[..|items| - 1];
      assert init[k] == items[k];
      ManifestLastWins(init, k);
    }
  }

  /** Three manifest items and a spine naming two of them around an unknown
      idref: two chapters, in spine order, each directory plus href. */
  lemma SpineExample()
    ensures var items := [
        Item(Some("c1"), Some("ch1.xhtml"), Some("application/xhtml+xml")),
        Item(Some("c2"), Some("ch2.xhtml"), Some("application/xhtml+xml")),
        Item(Some("css"), Some("style.css"), Some("text/css"))];
      SpineChapters("OEBPS/", BuildManifest(items), [Some("c2"), Some("nav"), Some("c1")])
        == [Chapter("OEBPS/ch2.xhtml"), Chapter("OEBPS/ch1.xhtml")]
  {
    var items := [
      Item(Some("c1"), Some("ch1.xhtml"), Some("application/xhtml+xml")),
      Item(Some("c2"), Some("ch2.xhtml"), Some("application/xhtml+xml")),
      Item(Some("css"), Some("style.css"), Some("text/css"))];
    var e1 := ManifestEntry("ch1.xhtml", "application/xhtml+xml");
    var e2 := ManifestEntry("ch2.xhtml", "application/xhtml+xml");
    var e3 := ManifestEntry("style.css", "text/css");
    assert items[..1][..0] == [];
    assert BuildManifest(items[..1]) == map["c1" := e1];
    assert items[..2][..1] == items[..1];
    assert BuildManifest(items[..2]) == map["c1" := e1, "c2" := e2];
    assert items[..3][..2] == items[..2];
    assert items[..3] == items;
    var m := BuildManifest(items);
    assert m == map["c1" := e1, "c2" := e2, "css" := e3];
    var refs := [Some("c2"), Some("nav"), Some("c1")];
    assert Lookup(m, Some("c1")) == Some(e1);
    assert Lookup(m, Some("nav")) == None;
    assert Lookup(m, Some("c2")) == Some(e2);
    assert "OEBPS/" + e1.href == "OEBPS/ch1.xhtml";
    assert "OEBPS/" + e2.href == "OEBPS/ch2.xhtml";
    assert refs[2..][1..] == [];
    assert SpineChapters("OEBPS/", m, refs[2..]) == [Chapter("OEBPS/ch1.xhtml")];
    assert refs[1..][1..] == refs[2..];
    assert SpineChapters("OEBPS/", m, refs[1..]) == [Chapter("OEBPS/ch1.xhtml")];
  }

  /** The names every plain JavaScript object inherits from
      `Object.prototype`; each reads as a truthy value on an empty object. */
  const ObjectPrototypeKeys: set<string> := {
    "constructor", "hasOwnProperty", "isPrototypeOf", "propertyIsEnumerable",
    "toLocaleString", "toString", "valueOf", "__proto__",
    "__defineGetter__", "__defineSetter__", "__lookupGetter__", "__lookupSetter__"}

  /** The href `manifest[idref].href` yields when the manifest is a plain
      object: an own entry's href, the string "undefined" (what `.href` of an
      inherited function becomes once concatenated) for an inherited name,
      and nothing otherwise. */
  function LookupAsWritten(m: Manifest, idref: Option<string>): Option<string>
  {
    if !Present(idref) then None
    else if idref.value in m then Some(m[idref.value].href)
    else if idref.value in ObjectPrototypeKeys then Some("undefined")
    else None
  }

  /** The chapter list as the code computes it with a plain-object manifest. */
  function SpineChaptersAsWritten(opfDir: string, m: Manifest, idrefs: seq<Option<string>>): seq<Chapter>
    decreases |idrefs|
  {
    if |idrefs| == 0 then []
    else
      (match LookupAsWritten(m, idrefs[0])
       case Some(href) => [Chapter(opfDir + href)]
       case None => [])
      + SpineChaptersAsWritten(opfDir, m, idrefs[1..])
  }

  /** The code's lookup and the intended one agree on every spine in which
      no present idref is an inherited name missing from the manifest. */
  lemma {:induction false} AsWrittenAgrees(opfDir: string, m: Manifest, idrefs: seq<Option<string>>)
    requires forall k :: 0 <= k < |idrefs| && Present(idrefs[k]) ==>
      idrefs[k].value in m || idrefs[k].value !in ObjectPrototypeKeys
    ensures SpineChaptersAsWritten(opfDir, m, idrefs) == SpineChapters(opfDir, m, idrefs)
    decreases |idrefs|
  {
    if |idrefs| > 0 {
      AsWrittenAgrees(opfDir, m, idrefs[1..]);
    }
  }

  /** An itemref naming an inherited property, here `toString`, with no such
      manifest item: the code emits the chapter "OEBPS/undefined", while
      the intended chapter list skips it. */
  lemma InheritedIdrefExample()
    ensures SpineChaptersAsWritten("OEBPS/", map[], [Some("toString")]) == [Chapter("OEBPS/undefined")]
    ensures SpineChapters("OEBPS/", map[], [Some("toString")]) == []
  {
    assert "toString" in ObjectPrototypeKeys;
    assert LookupAsWritten(map[], Some("toString")) == Some("undefined");
    assert "OEBPS/" + "undefined" == "OEBPS/undefined";
    assert [Some("toString")][1..] == [];
  }
}
