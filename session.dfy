/** The reader session (components/epub-viewer.tsx:21-31, 147-198, 263-298):
    open/closed state, chapter list and position, displayed content, font
    size, metadata and error, driven by the reader's handlers. */
module Session {
  import opened Wrappers
  import opened Strings
  import opened Documents
  import opened Paths
  import opened Package
  import opened Chapters

  const MinFontSize := 50
  const MaxFontSize := 200
  const DefaultFontSize := 100

  const InvalidFileMessage := "Please select a valid EPUB file"
  const LoadErrorPrefix := "Error loading EPUB file: "

  /** The font-size decrement: `Math.max(50, s - 10)`. */
  function FontDown(size: int): (r: int)
    ensures r >= MinFontSize
    ensures r <= size || size < MinFontSize
    ensures size - 10 >= MinFontSize ==> r == size - 10
    ensures size - 10 < MinFontSize ==> r == MinFontSize
  {
    if size - 10 < MinFontSize then MinFontSize else size - 10
  }

  /** The font-size increment: `Math.min(200, s + 10)`. */
  function FontUp(size: int): (r: int)
    ensures r <= MaxFontSize
    ensures r >= size || size > MaxFontSize
    ensures size + 10 <= MaxFontSize ==> r == size + 10
    ensures size + 10 > MaxFontSize ==> r == MaxFontSize
  {
    if size + 10 > MaxFontSize then MaxFontSize else size + 10
  }

  /** The sizes reachable from the default one: a multiple of 10 in
      [50, 200]. */
  predicate FontSizeOk(size: int)
  {
    MinFontSize <= size <= MaxFontSize && size % 10 == 0
  }

  /** The size after a sequence of presses, `true` for the increase button. */
  function ApplyFontSteps(size: int, ups: seq<bool>): int
    decreases |ups|
  {
    if |ups| == 0 then size
    else ApplyFontSteps(if ups[0] then FontUp(size) else FontDown(size), ups[1..])
  }

  /** Any sequence of presses keeps the size a multiple of 10 in [50, 200]. */
  lemma {:induction false} FontStepsStayInRange(size: int, ups: seq<bool>)
    requires FontSizeOk(size)
    ensures FontSizeOk(ApplyFontSteps(size, ups))
    decreases |ups|
  {
    if |ups| > 0 {
      FontStepsStayInRange(if ups[0] then FontUp(size) else FontDown(size), ups[1..]);
    }
  }

  /** Six decrements from 100 give 50, not 40. */
  lemma SixDecrements()
    ensures ApplyFontSteps(DefaultFontSize, [false, false, false, false, false, false]) == 50
  {
    var downs := [false, false, false, false, false, false];
    assert ApplyFontSteps(100, downs) == ApplyFontSteps(90, downs[1..]);
    assert ApplyFontSteps(90, downs[1..]) == ApplyFontSteps(80, downs[2..]);
    assert ApplyFontSteps(80, downs[2..]) == ApplyFontSteps(70, downs[3..]);
    assert ApplyFontSteps(70, downs[3..]) == ApplyFontSteps(60, downs[4..]);
    assert ApplyFontSteps(60, downs[4..]) == ApplyFontSteps(50, downs[5..]);
    assert ApplyFontSteps(50, downs[5..]) == ApplyFontSteps(50, downs[6..]);
  }

  /** The Previous button's `disabled` condition. */
  predicate PrevDisabled(current: int)
  {
    current == 0
  }

  /** The Next button's `disabled` condition. */
  predicate NextDisabled(current: int, count: int)
  {
    current >= count - 1
  }

  /** A position inside a non-empty chapter list. */
  predicate InRange(current: int, count: int)
  {
    0 <= current < count
  }

  /** From a position in range, an enabled button moves to a position in
      range; with no chapters both buttons are disabled. */
  lemma NavigationStaysInRange(current: int, count: int)
    requires InRange(current, count) || (count == 0 && current == 0)
    ensures !PrevDisabled(current) ==> InRange(current - 1, count)
    ensures !NextDisabled(current, count) ==> InRange(current + 1, count)
    ensures count == 0 ==> PrevDisabled(current) && NextDisabled(current, count)
    ensures count > 0 ==> (NextDisabled(current, count) <==> current == count - 1)
  {
  }

  /** The progress bar's width in percent (exact arithmetic). */
  function Progress(current: int, count: int): real
  {
    if count > 0 then ((current + 1) as real / count as real) * 100.0 else 0.0
  }

  /** Progress is positive and at most 100 inside the list, exactly 100 at
      the last chapter, and 100/N at the first. */
  lemma ProgressFacts(current: int, count: int)
    requires InRange(current, count)
    ensures 0.0 < Progress(current, count) <= 100.0
    ensures Progress(current, count) == 100.0 <==> current == count - 1
    ensures Progress(0, count) == 100.0 / count as real
  {
    var n := count as real;
    var c := (current + 1) as real;
    assert 0.0 < c <= n;
    assert c / n <= 1.0;
    assert c / n == 1.0 <==> c == n;
  }

  /** Without chapters the progress bar is empty, whatever the position. */
  lemma ProgressEmpty(current: int)
    ensures Progress(current, 0) == 0.0
  {
  }

  /** The reader component's state. */
  class Reader {
    /** The foreign code the reader calls (text decoding, markup parsing). */
    const host: Host

    var error: Option<string>
    var isViewerOpen: bool
    var bookMetadata: Metadata
    var chapters: seq<Chapter>
    var currentChapter: int
    var chapterContent: Content
    var fontSize: int
    /** The archive the chapters refer to (the book reference); empty while
        no book is open. */
    var zip: Archive
    /** The data behind every object URL created so far, indexed by handle;
        object URLs are never revoked. */
    var objectUrls: seq<Bytes>

    /** The state every handler keeps. While closed, the book state is
        the initial one; an open reader has no error; the position is in
        the chapter list, or 0 when there are no chapters. */
    ghost predicate Valid()
      reads this
    {
      && FontSizeOk(fontSize)
      && (if |chapters| > 0 then InRange(currentChapter, |chapters|) else currentChapter == 0)
      && (!isViewerOpen ==>
            chapters == [] && chapterContent == Text("") && bookMetadata == Metadata("", "") && zip == map[])
      && (isViewerOpen ==> error == None)
      && HandlesBelow(chapterContent, |objectUrls|)
    }

    constructor (host: Host)
      ensures Valid() && this.host == host
      ensures error == None && !isViewerOpen && bookMetadata == Metadata("", "")
      ensures chapters == [] && currentChapter == 0 && chapterContent == Text("")
      ensures fontSize == DefaultFontSize && zip == map[] && objectUrls == []
    {
      this.host := host;
      error := None;
      isViewerOpen := false;
      bookMetadata := Metadata("", "");
      chapters := [];
      currentChapter := 0;
      chapterContent := Text("");
      fontSize := DefaultFontSize;
      zip := map[];
      objectUrls := [];
    }

    /** `URL.createObjectURL(blob)`: a fresh handle for the data. */
    method CreateObjectUrl(blob: Bytes) returns (handle: nat)
      modifies this`objectUrls
      ensures handle == |old(objectUrls)|
      ensures objectUrls == old(objectUrls) + [blob]
    {
      handle := |objectUrls|;
      objectUrls := objectUrls + [blob];
    }

    /** `loadChapter(index, chapters)`: only when the index is in the list
        and its entry exists are the content and the position both set;
        otherwise nothing changes. */
    method LoadChapter(index: int)
      requires Valid()
      modifies this`chapterContent, this`currentChapter, this`objectUrls
      ensures Valid()
      ensures var r := Load(zip, host, chapters, index, |old(objectUrls)|);
        if r.None? then
          chapterContent == old(chapterContent) && currentChapter == old(currentChapter)
          && objectUrls == old(objectUrls)
        else
          chapterContent == r.value.content && currentChapter == index
          && objectUrls == old(objectUrls) + r.value.blobs
    {
      if index < 0 || index >= |chapters| {
        return;
      }
      var chapter := chapters[index];
      if chapter.path !in zip {
        return;
      }
      var shown := RenderChapter(chapter.path);
      RenderHandles(zip, host, chapter.path, |old(objectUrls)|);
      chapterContent := shown;
      currentChapter := index;
    }

    /** Reading and rendering a chapter entry that exists
        (components/epub-viewer.tsx:58-81): its images loaded in document
        order, then the body's inner markup or the raw text. */
    method RenderChapter(chapterPath: string) returns (shown: Content)
      requires chapterPath in zip
      modifies this`objectUrls
      ensures var r := Render(zip, host, chapterPath, |old(objectUrls)|).value;
        shown == r.content && objectUrls == old(objectUrls) + r.blobs
    {
      var content := host.readText(zip[chapterPath]);
      var doc := host.parseChapter(content);
      var images := doc.images;
      var srcs: seq<ImgSrc> := [];
      ghost var next := |objectUrls|;
      for i := 0 to |images|
        modifies this`objectUrls
        invariant srcs == RewriteImages(zip, chapterPath, images[..i], next)
        invariant objectUrls == old(objectUrls) + ImageBlobs(zip, chapterPath, images[..i])
      {
        RewriteAppend(zip, chapterPath, images[..i], images[i], next);
        BlobsAppend(zip, chapterPath, images[..i], images[i]);
        assert images[..i + 1] == images[..i] + [images[i]];
        var img := LoadImage(chapterPath, images[i]);
        srcs := srcs + [img];
      }
      assert images[..|images|] == images;
      shown := if doc.body.Some? then Html(doc.body.value, srcs) else Text(content);
    }

    /** One image of a chapter being loaded (components/epub-viewer.tsx:
        65-77): a non-empty `src` not starting with "http" is resolved
        against the chapter's path, and an existing entry gets an object
        URL. */
    method LoadImage(chapterPath: string, src: Option<string>) returns (img: ImgSrc)
      modifies this`objectUrls
      ensures img == RewriteOne(zip, chapterPath, src, |old(objectUrls)|)
      ensures objectUrls == old(objectUrls) + TargetBlob(zip, chapterPath, src)
    {
      img := Attr(src);
      if Present(src) && !StartsWith(src.value, "http") {
        var imgPath := ResolveRelativePath(chapterPath, src.value);
        if imgPath in zip {
          var url := CreateObjectUrl(zip[imgPath]);
          img := ObjectUrl(url);
        }
      }
    }

    /** `handleFile(file)`, with the archive as JSZip decoded it (or the
        message it failed with). Only offered while the reader is closed. */
    method HandleFile(name: string, archive: Result<Archive, string>)
      requires Valid() && !isViewerOpen
      modifies this
      ensures Valid()
      ensures fontSize == old(fontSize)
      ensures !EndsWith(name, ".epub") ==>
        && error == Some(InvalidFileMessage)
        && !isViewerOpen && chapters == old(chapters) && currentChapter == old(currentChapter)
        && chapterContent == old(chapterContent) && bookMetadata == old(bookMetadata)
        && zip == old(zip) && objectUrls == old(objectUrls)
      ensures EndsWith(name, ".epub") && archive.Err? ==>
        && error == Some(LoadErrorPrefix + archive.error)
        && !isViewerOpen && chapters == old(chapters) && currentChapter == old(currentChapter)
        && chapterContent == old(chapterContent) && bookMetadata == old(bookMetadata)
        && zip == old(zip) && objectUrls == old(objectUrls)
      ensures EndsWith(name, ".epub") && archive.Ok? && Parse(archive.value, host).Err? ==>
        && error == Some(LoadErrorPrefix + ErrorMessage(Parse(archive.value, host).error))
        && !isViewerOpen && chapters == old(chapters) && currentChapter == old(currentChapter)
        && chapterContent == old(chapterContent) && bookMetadata == old(bookMetadata)
        && zip == old(zip) && objectUrls == old(objectUrls)
      ensures EndsWith(name, ".epub") && archive.Ok? && Parse(archive.value, host).Ok? ==>
        var book := Parse(archive.value, host).value;
        var r := Load(archive.value, host, book.chapters, 0, |old(objectUrls)|);
        && error == None && isViewerOpen
        && chapters == book.chapters && bookMetadata == book.metadata && zip == archive.value
        && currentChapter == 0
        && (r.None? ==> chapterContent == Text("") && objectUrls == old(objectUrls))
        && (r.Some? ==> chapterContent == r.value.content && objectUrls == old(objectUrls) + r.value.blobs)
    {
      if !EndsWith(name, ".epub") {
        error := Some(InvalidFileMessage);
        return;
      }
      error := None;
      if archive.Err? {
        error := Some(LoadErrorPrefix + archive.error);
        return;
      }
      var parsed := ParseEpub(archive.value, host);
      if parsed.Err? {
        error := Some(LoadErrorPrefix + ErrorMessage(parsed.error));
        return;
      }
      bookMetadata := parsed.value.metadata;
      zip := archive.value;
      chapters := parsed.value.chapters;
      isViewerOpen := true;
      LoadChapter(0);
    }

    /** `closeBook()`: back to the closed state; the font size and the error
        are kept, and object URLs stay registered. */
    method CloseBook()
      requires Valid()
      modifies this
      ensures Valid()
      ensures !isViewerOpen && chapters == [] && currentChapter == 0
      ensures chapterContent == Text("") && bookMetadata == Metadata("", "") && zip == map[]
      ensures fontSize == old(fontSize) && error == old(error) && objectUrls == old(objectUrls)
    {
      isViewerOpen := false;
      chapters := [];
      currentChapter := 0;
      chapterContent := Text("");
      bookMetadata := Metadata("", "");
      zip := map[];
    }

    /** The Previous button: loads the chapter before the current one unless
        the button is disabled. */
    method Previous()
      requires Valid()
      modifies this`chapterContent, this`currentChapter, this`objectUrls
      ensures Valid()
      ensures PrevDisabled(old(currentChapter)) ==>
        chapterContent == old(chapterContent) && currentChapter == old(currentChapter)
        && objectUrls == old(objectUrls)
      ensures !PrevDisabled(old(currentChapter)) ==>
        var r := Load(zip, host, chapters, old(currentChapter) - 1, |old(objectUrls)|);
        && (r.None? ==> chapterContent == old(chapterContent) && currentChapter == old(currentChapter)
                        && objectUrls == old(objectUrls))
        && (r.Some? ==> chapterContent == r.value.content && currentChapter == old(currentChapter) - 1
                        && objectUrls == old(objectUrls) + r.value.blobs)
    {
      if !PrevDisabled(currentChapter) {
        LoadChapter(currentChapter - 1);
      }
    }

    /** The Next button: loads the chapter after the current one unless the
        button is disabled. */
    method Next()
      requires Valid()
      modifies this`chapterContent, this`currentChapter, this`objectUrls
      ensures Valid()
      ensures NextDisabled(old(currentChapter), |chapters|) ==>
        chapterContent == old(chapterContent) && currentChapter == old(currentChapter)
        && objectUrls == old(objectUrls)
      ensures !NextDisabled(old(currentChapter), |chapters|) ==>
        var r := Load(zip, host, chapters, old(currentChapter) + 1, |old(objectUrls)|);
        && (r.None? ==> chapterContent == old(chapterContent) && currentChapter == old(currentChapter)
                        && objectUrls == old(objectUrls))
        && (r.Some? ==> chapterContent == r.value.content && currentChapter == old(currentChapter) + 1
                        && objectUrls == old(objectUrls) + r.value.blobs)
    {
      if !NextDisabled(currentChapter, |chapters|) {
        LoadChapter(currentChapter + 1);
      }
    }

    /** The font-size decrease button. */
    method DecreaseFontSize()
      requires Valid()
      modifies this`fontSize
      ensures Valid()
      ensures fontSize == FontDown(old(fontSize))
    {
      fontSize := FontDown(fontSize);
    }

    /** The font-size increase button. */
    method IncreaseFontSize()
      requires Valid()
      modifies this`fontSize
      ensures Valid()
      ensures fontSize == FontUp(old(fontSize))
    {
      fontSize := FontUp(fontSize);
    }

    /** The progress bar's width for the current state. */
    function CurrentProgress(): (p: real)
      reads this
      requires Valid()
      ensures |chapters| == 0 ==> p == 0.0
      ensures |chapters| > 0 ==> 0.0 < p <= 100.0
      ensures |chapters| > 0 ==> (p == 100.0 <==> currentChapter == |chapters| - 1)
    {
      if |chapters| > 0 then ProgressFacts(currentChapter, |chapters|); Progress(currentChapter, |chapters|)
      else Progress(currentChapter, |chapters|)
    }
  }
}
