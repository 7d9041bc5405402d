/** What loading a chapter produces (`loadChapter`,
    components/epub-viewer.tsx:49-88): image sources rewritten to object
    URLs where the archive holds the image, then the body's inner markup or
    the raw text. */
module Chapters {
  import opened Wrappers
  import opened Strings
  import opened Documents
  import opened Paths
  import opened Package

  /** An image's source once the chapter is loaded: its untouched `src`
      attribute, or the object URL created for it (an opaque handle). */
  datatype ImgSrc = Attr(src: Option<string>) | ObjectUrl(handle: nat)

  /** What the chapter pane shows: a body's inner markup, with the document's
      images as loaded, or the chapter's raw text when it has no body. */
  datatype Content = Html(body: string, images: seq<ImgSrc>) | Text(text: string)

  /** The archive entry an image is loaded from: only for a non-empty `src`
      that does not start with "http", and only when the `src`, resolved
      against the chapter's path, names an entry. */
  function ImageTarget(zip: Archive, chapterPath: string, src: Option<string>): Option<string>
  {
    if Present(src) && !StartsWith(src.value, "http") && Resolve(chapterPath, src.value) in zip
    then Some(Resolve(chapterPath, src.value))
    else None
  }

  /** The images' sources after loading, handles numbered from `next` in
      document order. */
  function RewriteImages(zip: Archive, chapterPath: string, srcs: seq<Option<string>>, next: nat): seq<ImgSrc>
    decreases |srcs|
  {
    if |srcs| == 0 then []
    else if ImageTarget(zip, chapterPath, srcs[0]).Some? then
      [ObjectUrl(next)] + RewriteImages(zip, chapterPath, srcs[1..], next + 1)
    else
      [Attr(srcs[0])] + RewriteImages(zip, chapterPath, srcs[1..], next)
  }

  /** The data one image registers: its target entry's, or none. */
  function TargetBlob(zip: Archive, chapterPath: string, src: Option<string>): seq<Bytes>
  {
    match ImageTarget(zip, chapterPath, src)
    case Some(p) => [zip[p]]
    case None => []
  }

  /** The image data turned into object URLs, in the order it was loaded. */
  function ImageBlobs(zip: Archive, chapterPath: string, srcs: seq<Option<string>>): seq<Bytes>
    decreases |srcs|
  {
    if |srcs| == 0 then []
    else TargetBlob(zip, chapterPath, srcs[0]) + ImageBlobs(zip, chapterPath, srcs[1..])
  }

  /** The displayed content and the image data registered while loading. */
  datatype Rendered = Rendered(content: Content, blobs: seq<Bytes>)

  /** Loading the chapter at `chapterPath`: nothing when the entry is
      missing. */
  function Render(zip: Archive, host: Host, chapterPath: string, next: nat): Option<Rendered>
  {
    if chapterPath !in zip then None
    else
      var text := host.readText(zip[chapterPath]);
      var doc := host.parseChapter(text);
      var images := RewriteImages(zip, chapterPath, doc.images, next);
      var content := if doc.body.Some? then Html(doc.body.value, images) else Text(text);
      Some(Rendered(content, ImageBlobs(zip, chapterPath, doc.images)))
  }

  /** `loadChapter(index, chapters)`: nothing for an index outside the chapter
      list or a chapter whose entry is missing. */
  function Load(zip: Archive, host: Host, chapters: seq<Chapter>, index: int, next: nat): (r: Option<Rendered>)
    ensures r.Some? <==> 0 <= index < |chapters| && chapters[index].path in zip
    ensures r.Some? ==>
      var text := host.readText(zip[chapters[index].path]);
      var doc := host.parseChapter(text);
      && (doc.body.Some? ==> r.value.content.Html? && r.value.content.body == doc.body.value)
      && (doc.body.None? ==> r.value.content == Text(text))
  {
    if 0 <= index < |chapters| then Render(zip, host, chapters[index].path, next) else None
  }

  /** Whether every object URL among `images` is below `n`. */
  predicate ImagesBelow(images: seq<ImgSrc>, n: nat)
  {
    forall i :: 0 <= i < |images| && images[i].ObjectUrl? ==> images[i].handle < n
  }

  /** Whether every object URL shown by `c` is below `n`. */
  predicate HandlesBelow(c: Content, n: nat)
  {
    c.Html? ==> ImagesBelow(c.images, n)
  }

  /** The source one image gets when it is loaded with `next` as the next
      free handle. */
  function RewriteOne(zip: Archive, chapterPath: string, src: Option<string>, next: nat): ImgSrc
  {
    if ImageTarget(zip, chapterPath, src).Some? then ObjectUrl(next) else Attr(src)
  }

  /** Loading one more image appends its source, numbered after the images
      loaded so far. */
  lemma {:induction false} RewriteAppend(zip: Archive, chapterPath: string, srcs: seq<Option<string>>, src: Option<string>, next: nat)
    ensures RewriteImages(zip, chapterPath, srcs + [src], next)
      == RewriteImages(zip, chapterPath, srcs, next)
         + [RewriteOne(zip, chapterPath, src, next + |ImageBlobs(zip, chapterPath, srcs)|)]
    decreases |srcs|
  {
    if |srcs| == 0 {
      assert [src][1..] == [];
    } else {
      assert (srcs + [src])[0] == srcs[0];
      assert (srcs + [src])[1..] == srcs[1..] + [src];
      if ImageTarget(zip, chapterPath, srcs[0]).Some? {
        RewriteAppend(zip, chapterPath, srcs[1..], src, next + 1);
      } else {
        RewriteAppend(zip, chapterPath, srcs[1..], src, next);
      }
    }
  }

  /** Loading one more image appends its data when it is loaded at all. */
  lemma {:induction false} BlobsAppend(zip: Archive, chapterPath: string, srcs: seq<Option<string>>, src: Option<string>)
    ensures ImageBlobs(zip, chapterPath, srcs + [src])
      == ImageBlobs(zip, chapterPath, srcs)
         + TargetBlob(zip, chapterPath, src)
    decreases |srcs|
  {
    if |srcs| == 0 {
      assert [src][1..] == [];
    } else {
      var head := TargetBlob(zip, chapterPath, srcs[0]);
      assert (srcs + [src])[0] == srcs[0];
      assert (srcs + [src])[1..] == srcs[1..] + [src];
      BlobsAppend(zip, chapterPath, srcs[1..], src);
      calc {
        ImageBlobs(zip, chapterPath, srcs + [src]);
        head + ImageBlobs(zip, chapterPath, srcs[1..] + [src]);
        head + (ImageBlobs(zip, chapterPath, srcs[1..]) + TargetBlob(zip, chapterPath, src));
        (head + ImageBlobs(zip, chapterPath, srcs[1..])) + TargetBlob(zip, chapterPath, src);
      }
    }
  }

  /** Image k keeps its `src` unless it is non-empty, not "http"-prefixed and
      resolves to an entry; then it gets the next fresh handle, numbered
      after the images before it, and that handle's data is the entry. */
  lemma {:induction false} RewriteAt(zip: Archive, chapterPath: string, srcs: seq<Option<string>>, next: nat, k: nat)
    requires k < |srcs|
    ensures |RewriteImages(zip, chapterPath, srcs, next)| == |srcs|
    ensures var before := |ImageBlobs(zip, chapterPath, srcs[..k])|;
      var blobs := ImageBlobs(zip, chapterPath, srcs);
      && (ImageTarget(zip, chapterPath, srcs[k]).None? ==>
            RewriteImages(zip, chapterPath, srcs, next)[k] == Attr(srcs[k]))
      && (ImageTarget(zip, chapterPath, srcs[k]).Some? ==>
            && RewriteImages(zip, chapterPath, srcs, next)[k] == ObjectUrl(next + before)
            && before < |blobs|
            && blobs[before] == zip[Resolve(chapterPath, srcs[k].value)])
    decreases |srcs|
  {
    RewriteLength(zip, chapterPath, srcs, next);
    SourceAt(zip, chapterPath, srcs, next, k);
    if ImageTarget(zip, chapterPath, srcs[k]).Some? {
      BlobAt(zip, chapterPath, srcs, k);
    }
  }

  /** The source image k gets: the one `RewriteOne` gives it with the
      handles used by the images before it taken. */
  lemma {:induction false} SourceAt(zip: Archive, chapterPath: string, srcs: seq<Option<string>>, next: nat, k: nat)
    requires k < |srcs|
    ensures |RewriteImages(zip, chapterPath, srcs, next)| == |srcs|
    ensures RewriteImages(zip, chapterPath, srcs, next)[k]
      == RewriteOne(zip, chapterPath, srcs[k], next + |ImageBlobs(zip, chapterPath, srcs[..k])|)
    decreases |srcs|
  {
    RewriteLength(zip, chapterPath, srcs, next);
    if k == 0 {
      assert srcs[..0] == [];
    } else {
      var tail := srcs[1..];
      var step := if ImageTarget(zip, chapterPath, srcs[0]).Some? then 1 else 0;
      SourceAt(zip, chapterPath, tail, next + step, k - 1);
      assert tail[k - 1] == srcs[k];
      assert srcs[..k][0] == srcs[0];
      assert srcs[..k][1..] == tail[..k - 1];
      assert |ImageBlobs(zip, chapterPath, srcs[..k])| == step + |ImageBlobs(zip, chapterPath, tail[..k - 1])|;
    }
  }

  /** The data of a loaded image k sits after the data of the images before
      it. */
  lemma {:induction false} BlobAt(zip: Archive, chapterPath: string, srcs: seq<Option<string>>, k: nat)
    requires k < |srcs| && ImageTarget(zip, chapterPath, srcs[k]).Some?
    ensures |ImageBlobs(zip, chapterPath, srcs[..k])| < |ImageBlobs(zip, chapterPath, srcs)|
    ensures ImageBlobs(zip, chapterPath, srcs)[|ImageBlobs(zip, chapterPath, srcs[..k])|]
      == zip[Resolve(chapterPath, srcs[k].value)]
    decreases |srcs|
  {
    if k == 0 {
      assert srcs[..0] == [];
    } else {
      var tail := srcs[1..];
      var head := TargetBlob(zip, chapterPath, srcs[0]);
      BlobAt(zip, chapterPath, tail, k - 1);
      assert tail[k - 1] == srcs[k];
      assert srcs[..k][0] == srcs[0] && srcs[..k][1..] == tail[..k - 1];
      assert ImageBlobs(zip, chapterPath, srcs) == head + ImageBlobs(zip, chapterPath, tail);
      assert ImageBlobs(zip, chapterPath, srcs[..k]) == head + ImageBlobs(zip, chapterPath, tail[..k - 1]);
    }
  }

  lemma {:induction false} RewriteLength(zip: Archive, chapterPath: string, srcs: seq<Option<string>>, next: nat)
    ensures |RewriteImages(zip, chapterPath, srcs, next)| == |srcs|
    ensures ImagesBelow(RewriteImages(zip, chapterPath, srcs, next), next + |ImageBlobs(zip, chapterPath, srcs)|)
    decreases |srcs|
  {
    if |srcs| > 0 {
      var step := if ImageTarget(zip, chapterPath, srcs[0]).Some? then 1 else 0;
      RewriteLength(zip, chapterPath, srcs[1..], next + step);
    }
  }

  /** Loading only hands out handles below the ones it registers. */
  lemma RenderHandles(zip: Archive, host: Host, chapterPath: string, next: nat)
    requires Render(zip, host, chapterPath, next).Some?
    ensures var r := Render(zip, host, chapterPath, next).value;
      HandlesBelow(r.content, next + |r.blobs|)
  {
    var doc := host.parseChapter(host.readText(zip[chapterPath]));
    RewriteLength(zip, chapterPath, doc.images, next);
  }
}
