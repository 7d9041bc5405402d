# Inkbound books: a verified model of the in-browser EPUB reader

The site's one piece of real logic is its EPUB reader (`components/epub-viewer.tsx`).
A user picks a `.epub` file. The reader finds the package document through
`META-INF/container.xml` (EPUB Open Container Format 3, section 3.5). It builds an
id → href manifest and walks the spine in order to get the chapter list (EPUB
Packages 3). It then shows one chapter at a time. While doing so it rewrites each
chapter's relative image references into object URLs, and it offers previous/next
navigation, a font-size control and a progress bar. Next to the reader, the model
also covers three small routing rules of the admin panel:

- the middleware's login/dashboard redirect;
- the sidebar's active-link rule;
- the slug → URL map of the pages manager.

Modules, leaf first:

- `Wrappers`: `Option` and `Result`.
- `Strings`: the JavaScript string operations the code uses (`startsWith`,
  `endsWith`, `lastIndexOf`, `split`, `join`), with JavaScript's edge cases, plus
  the two split/join round trips.
- `Paths`: `resolveRelativePath`. `Resolve` is its specification: the base's
  directory is concatenated with the reference, split on `/` and run through a
  stack (`Step`, `Normalize`). `ResolveRelativePath` is the loop the code runs,
  proved equal to `Resolve`.
- `Documents`: the decoded archive (`map<string, seq<bv8>>`) and the already-parsed
  views of the container, package and chapter documents. `Host` bundles the
  foreign code as functions: reading an entry as text, and the three markup
  parses.
- `Package`: `parseEPUB`.
  - `Parse` is the specification: it checks in order for the container, the
    rootfile, the `full-path` and the package entry, then builds the metadata,
    folds the manifest left to right (`BuildManifest`) and filters the spine
    (`SpineChapters`).
  - `ParseEpub` is the code's version, with its two `forEach` loops.
- `Chapters`: what `loadChapter` computes.
  - `ImageTarget` decides which image is replaced.
  - `RewriteImages` and `ImageBlobs` give the new sources and the data behind
    the object URLs.
  - `Load` covers the range and entry checks.
- `Session`: the component's state as a class `Reader`. It has one method per
  handler (`HandleFile`, `LoadChapter`, `Previous`, `Next`, `DecreaseFontSize`,
  `IncreaseFontSize`, `CloseBook`) and the invariant `Valid()` that all of them
  keep. The pure guards and formulas (`FontDown`, `FontUp`, `PrevDisabled`,
  `NextDisabled`, `Progress`) sit beside it.
- `Middleware`, `Sidebar`, `Pages`: the three routing rules as total functions on
  strings.

## Model

| member | source | states |
|---|---|---|
| Strings.StartsWith | components/epub-viewer.tsx:66 | definition: JavaScript's `startsWith`, the string's first characters equal to the argument; see Chapters.RewriteAt, Middleware.DecideCases |
| Strings.EndsWith | components/epub-viewer.tsx:148 | definition: JavaScript's `endsWith`, the string's last characters equal to the argument; see Session.Reader.HandleFile |
| Strings.Join | components/epub-viewer.tsx:46 | definition: JavaScript's `join`, the empty list giving "" and one part giving itself; see Strings.SplitJoin, Strings.JoinSplit |
| Strings.LastIndexOf | components/epub-viewer.tsx:34 | the result is -1 or the position of the needle, and no later position holds it |
| Strings.Split | components/epub-viewer.tsx:35 | `split("/")` always yields at least one part, and no part holds the separator |
| Strings.SplitJoin | components/epub-viewer.tsx:35-46 | joining separator-free parts (at least one) and splitting again gives the parts back |
| Strings.JoinSplit | components/epub-viewer.tsx:35-46 | splitting a string and joining the parts gives the string back |
| Paths.Dir | components/epub-viewer.tsx:34 | the base directory is a prefix of the path, is empty or ends in `/`, and is followed by no `/` (the longest such prefix) |
| Paths.DirAt | components/epub-viewer.tsx:34 | the directory is the prefix up to any `/` that no other `/` follows |
| Paths.Resolve | components/epub-viewer.tsx:33-47 | definition: base directory + reference, split on `/`, run through the stack, joined with `/`; see Paths.ResolveRelativePath, Paths.ResolveIsClean, Paths.ResolveIdempotent |
| Paths.Step | components/epub-viewer.tsx:39-43 | definition: `..` pops (a no-op on an empty stack), `.` and empty segments are dropped, anything else is pushed; see Paths.NormalizeClean, Paths.NormalizeKeepsClean |
| Paths.Normalize | components/epub-viewer.tsx:38-44 | definition: the stack after the parts, left to right; see Paths.NormalizeClean, Paths.NormalizeKeepsClean |
| Paths.ResolveRelativePath | components/epub-viewer.tsx:33-47 | the pop/push loop over the split segments returns exactly `Resolve(base, relative)` |
| Paths.NormalizeClean | components/epub-viewer.tsx:38-44 | the stack only ever holds segments that are not empty, `.` or `..` and hold no `/` |
| Paths.NormalizeKeepsClean | components/epub-viewer.tsx:38-44 | clean segments are all pushed, in order |
| Paths.ResolvedSegmentsClean | components/epub-viewer.tsx:33-47 | the segments the resolver joins are all clean |
| Paths.ResolveIsClean | components/epub-viewer.tsx:33-47 | the resolver is total, and every `/`-separated segment of a non-empty result is non-empty and neither `.` nor `..` |
| Paths.ResolveIdempotent | components/epub-viewer.tsx:34-46 | resolving a resolved path against a base with no `/` returns it unchanged |
| Paths.ResolveParent | components/epub-viewer.tsx:33-47 | for any clean segments, a reference `../i/x` from a chapter `a/b/f` names `a/i/x`: `..` takes back the directory it follows |
| Paths.ResolveCurrent | components/epub-viewer.tsx:33-47 | for any clean segments, a reference `./c` from a chapter `a/f` names `a/c`: `.` is dropped |
| Paths.ResolveUnderflow | components/epub-viewer.tsx:33-47 | for any clean `y`, a reference `../../y` from a chapter at the archive root names `y`: a `..` on an empty stack is a silent no-op |
| Package.OpfPath | components/epub-viewer.tsx:91-101 | definition: missing container, missing rootfile, missing or empty `full-path`, in that order; see Package.Parse |
| Package.ErrorMessage | components/epub-viewer.tsx:92-106 | definition: the four messages thrown; see Session.Reader.HandleFile |
| Package.EntryOf | components/epub-viewer.tsx:124-127 | definition: href and media type, each `""` when missing or empty; see Package.ManifestLastWins |
| Package.AddItem | components/epub-viewer.tsx:122-128 | definition: an item with a present id (over)writes it; see Package.ManifestKeys |
| Package.BuildManifest | components/epub-viewer.tsx:120-129 | definition: the items folded in document order; see Package.ManifestKeys, Package.ManifestLastWins |
| Package.Lookup | components/epub-viewer.tsx:135 | definition: the intended form of `idref && manifest[idref]`, the manifest's own entry for a present idref, or none; see Package.SpineFromManifest, Package.AsWrittenAgrees |
| Package.PackageOf | components/epub-viewer.tsx:108-109 | definition: the package entry read as text and parsed; see Package.Parse, Package.ParsedBook |
| Package.SpineStep | components/epub-viewer.tsx:134-140 | definition: one itemref's chapter, package directory + href, or none; see Package.SpineAppend |
| Package.SpineChapters | components/epub-viewer.tsx:132-141 | definition: the itemrefs' chapters in spine order; see Package.SpineConcat, Package.SpineLength, Package.SpineAllResolved, Package.SpineFromManifest |
| Package.LookupAsWritten | components/epub-viewer.tsx:135-137 | definition: `manifest[idref].href` on a plain object, `undefined` for an inherited name; see Package.InheritedIdrefExample, Package.AsWrittenAgrees |
| Package.SpineChaptersAsWritten | components/epub-viewer.tsx:132-141 | definition: the chapter list as the code computes it; see Package.InheritedIdrefExample, Package.AsWrittenAgrees |
| Package.MetadataOf | components/epub-viewer.tsx:112-117 | title and author are never empty; each is the element's text when that is present and non-empty, otherwise "Unknown Title" / "Unknown Author" |
| Package.Parse | components/epub-viewer.tsx:90-106 | failure order: a failure finding the package path is the result; otherwise a missing package entry gives `MissingOpfFile`; success exactly when the path is found and present |
| Package.ParseEpub | components/epub-viewer.tsx:90-145 | the code's four checks and two `forEach` loops return exactly `Parse(zip, host)` |
| Package.ParsedBook | components/epub-viewer.tsx:103-141 | on success the package directory is the package path's directory, the metadata comes from the package document, the chapters are exactly `SpineChapters` over that document's manifest and spine, there are at most as many chapters as itemrefs, and every chapter path starts with the package directory |
| Package.ParseFailureOrder | components/epub-viewer.tsx:91-101 | a missing container entry gives MissingContainer; with it present, a missing rootfile gives MissingRootfile, and a missing or empty `full-path` gives MissingOpfPath |
| Package.ManifestKeys | components/epub-viewer.tsx:121-129 | an id is in the manifest exactly when some item carries it as a non-empty id (items without one are ignored) |
| Package.ManifestLastWins | components/epub-viewer.tsx:121-129 | for a duplicated id the manifest holds the entry of the last item, with missing href/media-type as "" |
| Package.SpineConcat | components/epub-viewer.tsx:133-141 | the chapter list of concatenated spines is the concatenation of their chapter lists (document order is kept) |
| Package.SpineAppend | components/epub-viewer.tsx:133-141 | one more itemref appends its chapter, or nothing |
| Package.SpineLength | components/epub-viewer.tsx:133-141 | there are at most as many chapters as itemrefs, and exactly as many if and only if every itemref resolves |
| Package.SpineAllResolved | components/epub-viewer.tsx:133-141 | when every itemref resolves, chapter k's path is exactly the package directory + the href of itemref k's manifest entry (no normalisation) |
| Package.SpineFromManifest | components/epub-viewer.tsx:133-141 | every chapter comes from an itemref whose non-empty idref is in the manifest, with path = package directory + that entry's href |
| Package.SpineExample | components/epub-viewer.tsx:120-141 | three manifest items and a spine of two of their ids around an unknown one give exactly two chapters, in spine order |
| Package.AsWrittenAgrees | components/epub-viewer.tsx:133-141 | the code's plain-object lookup and the own-key lookup give the same chapter list whenever no present idref is an inherited name absent from the manifest |
| Package.InheritedIdrefExample | components/epub-viewer.tsx:135-137 | as written, an itemref `toString` with no such item yields chapter `OEBPS/undefined`, where the intended list is empty |
| Chapters.ImageTarget | components/epub-viewer.tsx:65-70 | definition: a present `src` not starting with "http" whose resolved path is an entry; see Chapters.RewriteAt |
| Chapters.TargetBlob | components/epub-viewer.tsx:69-72 | definition: the data one image registers, or none; see Chapters.BlobsAppend |
| Chapters.RewriteOne | components/epub-viewer.tsx:66-73 | definition: one image's source, the next object URL when it has a target entry, else its `src` unchanged; see Chapters.RewriteAppend, Chapters.SourceAt |
| Chapters.RewriteImages | components/epub-viewer.tsx:63-78 | definition: the images' sources after loading; see Chapters.RewriteAt, Chapters.SourceAt, Chapters.RewriteLength |
| Chapters.ImageBlobs | components/epub-viewer.tsx:63-78 | definition: the data behind the new object URLs, in order; see Chapters.BlobAt, Chapters.BlobsAppend |
| Chapters.Render | components/epub-viewer.tsx:55-81 | definition: the rewritten images and the body or raw text of an existing entry; see Chapters.Load, Session.Reader.RenderChapter |
| Chapters.Load | components/epub-viewer.tsx:49-88 | a chapter loads exactly when the index is in `[0, len)` and its entry exists; its content is then the body's inner markup, or the raw text when there is no body |
| Chapters.RewriteAppend | components/epub-viewer.tsx:64-78 | loading one more image appends its source, numbered after the object URLs already created |
| Chapters.BlobsAppend | components/epub-viewer.tsx:64-78 | loading one more image appends its data exactly when it is loaded |
| Chapters.RewriteAt | components/epub-viewer.tsx:63-78 | image k keeps its `src` unless it is non-empty, not "http"-prefixed and resolves to an existing entry; otherwise it gets the next fresh handle, whose data is that entry |
| Chapters.SourceAt | components/epub-viewer.tsx:64-77 | image k's source after loading is the one-image rewrite with the handles used by the images before it taken |
| Chapters.BlobAt | components/epub-viewer.tsx:69-72 | the data of a loaded image k follows the data of the images before it and is its resolved entry's |
| Chapters.RewriteLength | components/epub-viewer.tsx:63-78 | every image keeps its place, and every handle handed out is one of those created |
| Chapters.RenderHandles | components/epub-viewer.tsx:71-81 | the shown content only refers to object URLs created while loading it or before |
| Session.PrevDisabled | components/epub-viewer.tsx:284 | definition: the Previous button is disabled at position 0; see Session.NavigationStaysInRange |
| Session.NextDisabled | components/epub-viewer.tsx:293 | definition: the Next button is disabled at `len-1` or beyond; see Session.NavigationStaysInRange |
| Session.Progress | components/epub-viewer.tsx:198 | definition: `(cur+1)/len*100`, or 0 without chapters; see Session.ProgressFacts, Session.ProgressEmpty |
| Session.FontDown | components/epub-viewer.tsx:263 | the decrement never goes below 50, is exactly -10 while that stays at 50 or above, and is exactly 50 otherwise |
| Session.FontUp | components/epub-viewer.tsx:275 | the increment never goes above 200, is exactly +10 while that stays at 200 or below, and is exactly 200 otherwise |
| Session.FontStepsStayInRange | components/epub-viewer.tsx:263-275 | any sequence of ± presses keeps the size a multiple of 10 in [50, 200] |
| Session.SixDecrements | components/epub-viewer.tsx:263 | six decrements from 100 give 50, not 40 |
| Session.NavigationStaysInRange | components/epub-viewer.tsx:282-298 | Previous is disabled exactly at 0 and Next exactly at `len-1`; an enabled button moves to a position in `[0, len)`; with no chapters both are disabled |
| Session.ProgressFacts | components/epub-viewer.tsx:198 | progress is in (0, 100] inside the list, 100 exactly at the last chapter, 100/N at the first |
| Session.ProgressEmpty | components/epub-viewer.tsx:198 | with no chapters the progress is 0, whatever the position |
| Session.Reader.constructor | components/epub-viewer.tsx:22-31 | the initial state: closed, no error, no chapters, position 0, empty content, font size 100 |
| Session.Reader.CreateObjectUrl | components/epub-viewer.tsx:72 | a fresh handle (the number of handles so far) whose data is the blob |
| Session.Reader.LoadChapter | components/epub-viewer.tsx:49-88 | state is unchanged unless `Load` succeeds; then content and position are both set, and exactly the loaded images' data is registered |
| Session.Reader.RenderChapter | components/epub-viewer.tsx:58-81 | the image loop and the body choice produce exactly `Render`'s content and register exactly its image data, in document order |
| Session.Reader.LoadImage | components/epub-viewer.tsx:65-77 | one image gets `RewriteOne`'s source, numbered by the handles created so far, and registers its target entry's data or nothing |
| Session.Reader.HandleFile | components/epub-viewer.tsx:147-165 | a non-`.epub` name sets only the error; a zip or parse failure sets the error message and changes nothing else; success opens the viewer with the parsed chapters and metadata before loading chapter 0, which leaves the content empty if that chapter cannot load |
| Session.Reader.CloseBook | components/epub-viewer.tsx:188-196 | closed, no chapters, position 0, empty content and metadata; font size and error unchanged |
| Session.Reader.Previous | components/epub-viewer.tsx:282-289 | no-op at position 0; otherwise the effect of loading `current-1` |
| Session.Reader.Next | components/epub-viewer.tsx:291-298 | no-op at `len-1` or above; otherwise the effect of loading `current+1` |
| Session.Reader.DecreaseFontSize | components/epub-viewer.tsx:263 | the size becomes `FontDown` of the old size and stays valid |
| Session.Reader.IncreaseFontSize | components/epub-viewer.tsx:275 | the size becomes `FontUp` of the old size and stays valid |
| Session.Reader.CurrentProgress | components/epub-viewer.tsx:198 | 0 with no chapters; otherwise in (0, 100], and 100 exactly at the last chapter |
| Middleware.IsAuthenticated | middleware.ts:4-5 | definition: the `admin_session` cookie's value is exactly "authenticated"; see Middleware.GuardExamples |
| Middleware.Decide | middleware.ts:3-26 | definition: login redirect, dashboard redirect, or pass; see Middleware.DecideCases, Middleware.NoRedirectLoop |
| Middleware.DecideCases | middleware.ts:3-26 | redirect to `/admin/login` exactly for an unauthenticated path starting with `/admin` but not `/admin/login`; redirect to `/admin` exactly for an authenticated `/admin/login`; every other input passes |
| Middleware.NoRedirectLoop | middleware.ts:8-25 | a redirect never targets the requested path, and the request it leads to passes |
| Middleware.GuardExamples | middleware.ts:4-16 | `/administrator` is redirected too; only the exact cookie value "authenticated" authenticates |
| Middleware.LoginExamples | middleware.ts:8-25 | an authenticated `/admin/login` goes to `/admin`, an unauthenticated one passes, an authenticated deeper login path passes |
| Sidebar.IsActive | components/admin/admin-sidebar.tsx:46-47 | definition: equal to the href, or starting with it for any link but Dashboard; see Sidebar.DashboardActive, Sidebar.OtherLinkActive, Sidebar.AtMostOneActive |
| Sidebar.DashboardActive | components/admin/admin-sidebar.tsx:46-47 | the Dashboard link is active only when the pathname is exactly `/admin` |
| Sidebar.OtherLinkActive | components/admin/admin-sidebar.tsx:46-47 | any other link is active exactly when the pathname starts with its href (equality included) |
| Sidebar.BooksPages | components/admin/admin-sidebar.tsx:46-47 | under `/admin/books...` Books is active and Dashboard, Formats and Pages are not |
| Sidebar.PrefixDiffers | components/admin/admin-sidebar.tsx:17-22 | the three section hrefs are told apart by their eighth character |
| Sidebar.AtMostOneActive | components/admin/admin-sidebar.tsx:17-47 | on any pathname at most one of the four sidebar links is active |
| Pages.PageUrl | components/admin/pages-manager.tsx:63-76 | every URL starts with `/`; `home` maps to `/`, every other slug (named case or default) to `/` + slug |
| Pages.PageUrlCollisions | components/admin/pages-manager.tsx:63-76 | two slugs share a URL only if they are equal, or are `home` and the empty slug |

## Behaviour notes

In these edge cases the reader's code (components/epub-viewer.tsx) does the
following, and so does the model:

- Opening a book sets the viewer open before chapter 0 loads, and `loadChapter`
  swallows its own failures. A book with no chapters, or with a missing first
  chapter, therefore still opens, with empty content.
- `closeBook` resets neither the font size nor the error message.
- Images are skipped when their `src` starts with the literal "http". So a
  relative file named `http-logo.png` is not resolved.
- An empty `full-path` attribute counts as missing ("Missing OPF path"). An
  empty `id` or `idref` is ignored, and empty title or creator text falls back
  to the default.

## Left out

- Zip decompression (`JSZip.loadAsync`, `file.async`) is foreign code. The
  archive is an already-decoded map. The decoder's failure becomes the `Err`
  argument of `HandleFile`, and reading an entry as text is `Host.readText`.
- Reading from the decoded archive never throws. So the catch around an image
  read (components/epub-viewer.tsx:74-76) and the one around a whole chapter
  (83-85) are not modelled.
- Markup parsing (`DOMParser`, `querySelector`) is a browser API. Its results are
  the datatypes `ContainerDoc`, `PackageDoc` and `ChapterDoc`, produced by the
  `Host` functions. Serialising `body.innerHTML` after the image rewrite is not
  modelled. `Content.Html` keeps the body's markup and the images' sources side
  by side.
- `URL.createObjectURL` is an opaque token: the handle is the index of the blob
  in `objectUrls`. Object URLs are never revoked, as in the code.
- React state batching, `async`/`await` interleaving, drag-and-drop events,
  `isDragging` and the file-input reset are UI plumbing. `handleDrop` and
  `handleFileSelect` only forward to `handleFile`; `handleDragOver` and
  `handleDragLeave` only toggle `isDragging`.
- `bookDataRef`'s `opfDir` is never read again. Only the archive is kept, as
  `Reader.zip`.
- Package.ParseEpub / Package.Parse / Session.Reader.HandleFile: use the intended
  own-key manifest lookup (`Lookup`), so an itemref naming an inherited
  `Object.prototype` property with no such item is skipped. The code's lookup is
  `Package.SpineChaptersAsWritten` (see "## Findings"), and
  `Package.AsWrittenAgrees` proves the two agree on every spine without such an idref.
- Package.LookupAsWritten: does not model an item whose id is `__proto__`. In the
  code, assigning it replaces the manifest's prototype, after which `href` and
  `mediaType` also become inherited names.
- Session.Reader.HandleFile: requires a closed reader, because the upload control
  is only rendered while the viewer is closed (components/epub-viewer.tsx:200-236).
- Session.ProgressFacts: uses exact rational arithmetic rather than IEEE doubles,
  and the rounding of `(cur+1)/len*100` is not modelled. Its clause
  `Progress(0, N) == 100/N` holds over exact reals only. In doubles, `(1/3)*100` and
  `100/3` differ in the last digit. The clauses for the range and for 100 exactly
  at the last chapter also hold in doubles, since `(N/N)*100` is exactly 100.
- The middleware's `config.matcher` (middleware.ts:28-32) is framework routing.
  `Decide` is the function alone, so for example `/administrator` is decided as
  if the request reached it.
- The admin CRUD over the database, the login actions (environment and
  cookies), price formatting (floating point) and the static pages have no
  logic beyond I/O.

## Findings

| source | as written | input that shows it | evidently intended | confidence | as-written member | corrected member |
|---|---|---|---|---|---|---|
| components/epub-viewer.tsx:120-137 | the manifest is a plain object, so `manifest[idref]` also finds the names every object inherits from `Object.prototype` and the chapter path becomes `opfDir + undefined` | an itemref `idref="toString"` with no manifest item of that id, package directory `OEBPS/`: the chapter `OEBPS/undefined` is emitted | an itemref whose idref no manifest item carries is skipped | high (not executed) | Package.InheritedIdrefExample | Package.SpineFromManifest |
