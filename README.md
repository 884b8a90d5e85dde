# novel2epub in Dafny

A model of the deterministic core of novel2epub. The program downloads a novel
from the RanobeLib/MangaLib API and packs it into an EPUB book. The model
covers three parts:

- **The API client** (`MangalibApi`, with `Json` and `Text`):
  - the URLs of a work, of its chapter list and of each chapter;
  - `get_data`, which unwraps the `{"data": ...}` envelope, turns structured
    chapter content into its JSON text, decodes the result into a record, and
    on failure keeps a snippet of at most 100 characters;
  - the collect loop of `get_chapters`, which keeps the chapters that decoded,
    in chapter-list order, and skips the others.
- **EPUB assembly** (`Converter`):
  - the XHTML page of a chapter, with the empty `<p>`-no-break-space
    paragraphs stripped in one left-to-right pass;
  - the section file name `volume_<v>_number_<n>.xhtml`;
  - `generate_epub`, which gives a book builder the title, the cover and one
    section per chapter, in order, and stops at the first archive error.
- **The work's name on the command line** (`NovelUrl`): the text after the
  last `/` of the URL, with the query cut off.

JSON is a datatype (`Json.Value`). An object lists its members in the map's
iteration order, and a lookup takes the first member with the key. The
network is a parameter: `fetch(url)` is the parsed body of the response to
`url`, or `None` when that body is not JSON. The work URL and the chapter-list
URL are requested once, and their body is used whatever the status. A chapter
URL is requested until the status is 200, and `fetch` gives that response's
body. The archive
of the EPUB library is a parameter too: `accepts(path)` says whether writing
a file at `path` succeeds.

Struct decoding follows serde's derived `Deserialize` on a `serde_json::Value`:
- A struct decodes from an object that holds every field with the right type.
  Other members are ignored.
- It also decodes from an array with exactly one element per field, in
  declaration order.
- `Vec<ChapterInfo>` decodes only from an array whose every element decodes.

Two properties one might expect of the converter do not hold of the code, and
the model states what the code does:
- The marker pass does not always leave a marker-free page
  (`Converter.SinglePassLeavesMarker`).
- Section file names do not sort in reading order: number `"10"` sorts before
  number `"2"`. Only their distinctness is proved
  (`Converter.SectionNamesDistinct`).

## Model

| member | source | states |
|---|---|---|
| `Text.SplitOnce` | src/main.rs:22 | `split_once('?')`: `None` exactly when there is no `?`; otherwise the input is `before + "?" + after` and `before` has no `?` |
| `Text.SplitOnceAt` | src/main.rs:22 | a string `a + [c] + b` with no `c` in `a` splits at its first `c` into exactly `(a, b)` |
| `Text.Split` | src/main.rs:23-24 | `split('/')` always yields at least one piece, no piece holds `/`, and joining the pieces with `/` gives the input back |
| `Text.LastPiece` | src/main.rs:23-26 | the last piece of a split is a suffix without `/`; it is the whole string when there is no `/`, and it is preceded by a `/` otherwise |
| `Json.Get` | src/mangalib_api.rs:147-151 | `get(key)` is `Some` exactly when the value is an object with a member of that name, and then returns that member's value; it is `None` for every non-object |
| `Json.PutGet` | src/mangalib_api.rs:156 | after `object[key] = x`, `key` maps to `x`, every other name keeps its value, and an existing member keeps its place |
| `Json.GetAppendOther` | src/mangalib_api.rs:34-41 | a member added under another name does not change a lookup |
| `Json.Snippet` | src/mangalib_api.rs:166-167 | the diagnostic is the prefix of length `min(100, len)` of the data's text, and equals the whole text exactly when the text has at most 100 characters |
| `Json.Put` | src/mangalib_api.rs:156 | `object[key] = x` on a present key, the only case `get_data` reaches: the member is overwritten in its place, the length and the other positions are unchanged. The model's append branch for a missing key is not reached from this source line |
| `Json.Serialize` | src/mangalib_api.rs:156-167 | `to_string` writes a string as a quoted literal, an array between `[` and `]`, an object between `{` and `}`, a number starting with a digit or `-`, and `null`/`true`/`false` as words |
| `MangalibApi.GetUrl` | src/mangalib_api.rs:138-140 | the work URL is `https://api.mangalib.me/api/manga/` followed by the name, which can be read back |
| `MangalibApi.GetUrlInjective` | src/mangalib_api.rs:138-140 | distinct names give distinct work URLs |
| `MangalibApi.ChapterListUrl` | src/mangalib_api.rs:65-66 | the chapter-list URL is the work URL followed by `/chapters`, and the work's name can be read back from it |
| `MangalibApi.ChapterQuerySplit` | src/mangalib_api.rs:73-76 | the query `number=<n>&volume=<v>` splits at its first `&` into its two parameters when `n` has no `&` |
| `MangalibApi.ChapterUrlQuery` | src/mangalib_api.rs:73-76 | a chapter URL is the work URL, then `/chapter?`, then a query that gives back the chapter's number and volume, when the work URL holds no `?` and the number no `&` |
| `MangalibApi.ChapterUrlInjective` | src/mangalib_api.rs:73-76 | two chapters (numbers without `&`) get the same request URL only when number and volume agree |
| `MangalibApi.StructFields` | src/mangalib_api.rs:28-42 | a struct decodes from an object holding every field, or from an array with one element per field; the field values come back in declaration order: the members' values for an object, the array's elements for an array |
| `MangalibApi.AsStrings` | src/mangalib_api.rs:28-42 | `String` fields decode exactly when every value is a JSON string, and carry those strings |
| `MangalibApi.ChapterUrl` | src/mangalib_api.rs:73-76 | the chapter URL starts with the work URL, ends with the volume, and is 24 characters longer than the work URL, number and volume together (`ChapterUrlQuery` reads number and volume back) |
| `MangalibApi.DecodeCover` | src/mangalib_api.rs:19-26 | a `Cover` decodes from an object whose `default` and `thumbnail` are strings, and only from such an object or the array of those two strings; it carries those strings |
| `MangalibApi.DecodeInfo` | src/mangalib_api.rs:10-17 | an `Info` decodes from an object whose `cover` decodes and whose `name` and `rus_name` are strings; a decoded `Info` comes only from an object or a three-element array, and carries exactly those values |
| `MangalibApi.DecodeChapterInfo` | src/mangalib_api.rs:28-32 | a `ChapterInfo` decodes from an object whose `number` and `volume` are strings, and only from such an object or the array of those two strings |
| `MangalibApi.DecodeChapter` | src/mangalib_api.rs:34-42 | a decoded `Chapter` comes from an object whose four fields are its strings, or from the array of its four strings |
| `MangalibApi.DecodeChapterInfos` | src/mangalib_api.rs:67-68 | the chapter list decodes exactly when it is an array whose every element decodes as a `ChapterInfo`; the result follows the array's order element by element |
| `MangalibApi.DecodeChapterExactly` | src/mangalib_api.rs:34-41 | a value decodes to a given `Chapter` if and only if it is an object whose `name`, `number`, `volume` and `content` are those strings, or the array of those four strings |
| `MangalibApi.DecodeChapterIgnoresExtra` | src/mangalib_api.rs:34-41 | members other than the four chapter fields do not change decoding |
| `MangalibApi.NormalizeContent` | src/mangalib_api.rs:150-158 | the data value is left unchanged if and only if its `content` is not a JSON object (absent, a string, any other value, or `data` not an object) |
| `MangalibApi.NormalizeContentRewrites` | src/mangalib_api.rs:151-157 | object content becomes the string of its serialisation, in the same place; every other member of `data` is unchanged |
| `MangalibApi.NormalizeContentIdempotent` | src/mangalib_api.rs:150-158 | rewriting twice is rewriting once |
| `MangalibApi.GetDataResult` | src/mangalib_api.rs:142-171 | `MissingData` exactly when the top level has no `data` member; `Malformed` exactly when the text was not JSON; a schema error's snippet has at most 100 characters |
| `MangalibApi.GetDataDecodesNormalized` | src/mangalib_api.rs:150-169 | for every `data` value, the result is the decoding of the rewritten value; a failure carries the snippet of the rewritten value's text |
| `MangalibApi.GetDataNeedsObject` | src/mangalib_api.rs:147-148 | a top level that is not an object fails with `MissingData` |
| `MangalibApi.GetDataPassesThrough` | src/mangalib_api.rs:151-169 | without object content the data value is decoded unchanged; a failure carries the snippet of its text |
| `MangalibApi.GetChapterWithObjectContent` | src/mangalib_api.rs:151-162 | a chapter whose content is a JSON object decodes, and its content is that object's serialisation |
| `MangalibApi.GetData` | src/mangalib_api.rs:142-171 | the step-by-step `get_data` (take `data`, rewrite content in place, decode, cut the snippet) returns what `GetDataResult` specifies |
| `MangalibApi.GetInfo` | src/mangalib_api.rs:59-62 | the metadata is the decoded `data` of the response from the work URL |
| `MangalibApi.Successes` | src/mangalib_api.rs:102-118 | the chapters pushed by the collect loop; when every request fails, there are none |
| `MangalibApi.SuccessesAreOkSubsequence` | src/mangalib_api.rs:102-118 | the collected chapters are exactly the `Ok` values in input order: the k-th is the k-th `Ok`, positions increase, every `Ok` is taken and no `Err` |
| `MangalibApi.SuccessesBound` | src/mangalib_api.rs:102-118 | there are never more chapters than chapter descriptors |
| `MangalibApi.SuccessesAllOk` | src/mangalib_api.rs:102-118 | when nothing fails, every chapter is kept, in order |
| `MangalibApi.SuccessesSkipFailure` | src/mangalib_api.rs:110-114 | a failed chapter is skipped and not replaced: the chapters before and after it are joined |
| `MangalibApi.SuccessesConcat` | src/mangalib_api.rs:102-118 | collecting two runs of results one after the other concatenates their chapters |
| `MangalibApi.GetChapters` | src/mangalib_api.rs:64-119 | a chapter-list failure is returned as is; otherwise the result is the successes of the per-chapter requests to the chapter URLs, in list order |
| `Converter.SegmentsCutAtLeftmostMarker` | src/converter.rs:52 | the pass cuts at the leftmost marker: no marker starts inside the first segment, a single segment means the content has no marker, and otherwise a marker starts right after the first segment and the remaining segments are those of the text after it |
| `Converter.RemoveMarkersChangesIffMarker` | src/converter.rs:52 | the content is changed if and only if a marker occurs in it |
| `Converter.RemoveMarkersBySegments` | src/converter.rs:52 | the stripped content is the segments between the removed markers run together, and re-inserting a marker between them gives the original content |
| `Converter.RemoveMarkersLength` | src/converter.rs:52 | every removed occurrence shortens the content by exactly 8 characters |
| `Converter.RemoveMarkersWithoutMarker` | src/converter.rs:52 | content holding no marker is inserted verbatim |
| `Converter.SinglePassLeavesMarker` | src/converter.rs:52 | the pass is single: `<p><p>\u{a0}</p>\u{a0}</p>` (with the no-break space character U+00A0) leaves one marker behind |
| `Converter.MakeXhtmlContent` | src/converter.rs:36-53 | the page's length is the template's fixed text plus the chapter's name twice plus the content less 8 characters per removed marker (where each piece sits is `PageSlots`) |
| `Converter.TemplateSlots` | src/converter.rs:37-53 | every slot of a page filled from a template holds what was put there: the fixed pieces, the title twice and the body |
| `Converter.PageSlots` | src/converter.rs:36-53 | for any chapter name, `<` included, the name sits unescaped in the `<title>` slot and in the `<h1>` slot, and the stripped content sits between the heading and the closing tags |
| `Converter.TemplateRoundTrip` | src/converter.rs:37-53 | a page filled from the template gives back its title and its body when parsed up to the first `<`, for titles without `<` |
| `Converter.XhtmlRoundTrip` | src/converter.rs:36-53 | reading the page back by parsing: for a name without `<`, the text of `<title>` up to the first `<` is the name, and the body between the heading and the tail is the stripped content (for any name, `PageSlots` gives the positions) |
| `Converter.SectionFileName` | src/converter.rs:22 | the file name starts with `volume_` followed by the volume, has the `.xhtml` extension, and is 21 characters longer than the volume and the number together |
| `Converter.SectionFileNameParts` | src/converter.rs:22 | a section file name splits at its `_`s into `volume`, the volume and `number_<n>.xhtml` |
| `Converter.SectionFileNameInjective` | src/converter.rs:22 | with volumes free of `_`, equal file names mean equal volume and number |
| `Converter.SectionFileNamesDiffer` | src/converter.rs:22 | two chapters whose volumes hold no `_` and whose (volume, number) differ get different section file names |
| `Converter.SectionOf` | src/converter.rs:20-26 | a chapter's section is titled with the chapter's name, and its file is an `.xhtml` file |
| `Converter.SectionsOf` | src/converter.rs:19-28 | one section per chapter, in the chapters' order, each titled with its chapter's name |
| `Converter.SectionNamesDistinct` | src/converter.rs:19-28 | in the list of sections, one per chapter in chapter order, distinct chapters (volumes free of `_`) get distinct file names |
| `Converter.EpubBuilder.constructor` | src/converter.rs:12 | a new builder has no title, no cover and no sections |
| `Converter.EpubBuilder.SetTitle` | src/converter.rs:15 | the title is set, nothing else changes |
| `Converter.EpubBuilder.AddCoverImage` | src/converter.rs:17 | the cover is registered exactly when the archive accepts its path; nothing else changes |
| `Converter.EpubBuilder.AddContent` | src/converter.rs:20-27 | the section is appended after the existing ones exactly when the archive accepts it; otherwise nothing changes |
| `Converter.AcceptedPrefix` | src/converter.rs:19-28 | the number of chapters before the first one the archive refuses |
| `Converter.AcceptedPrefixAt` | src/converter.rs:19-28 | that number is fixed by the first refusal |
| `Converter.GenerateEpub` | src/converter.rs:7-34 | the title is `rus_name`; the cover is `cover_image.png` of type `image/png`; the sections are those of the chapters before the first refusal, in order; an error stops the run there, and success names `<name>.epub` |
| `Converter.EpubFileName` | src/converter.rs:30 | the output file is the work's `name` followed by `.epub` |
| `Converter.GenerateEpubAllAccepted` | src/converter.rs:19-28 | when the archive accepts everything, every chapter gets its section |
| `NovelUrl.BeforeQuery` | src/main.rs:22 | the part before the query is the prefix before the first `?`, or the whole URL when it has no `?` |
| `NovelUrl.LastSegment` | src/main.rs:23-27 | the last piece of a `/`-split always exists |
| `NovelUrl.NovelName` | src/main.rs:22-27 | the `expect` never fires: a name is always found |
| `NovelUrl.NovelNameIsLastSegment` | src/main.rs:22-26 | the name is the suffix after the last `/` of the part before the query, and holds neither `/` nor `?` |
| `NovelUrl.PlainNameIsItself` | src/main.rs:22-26 | a URL without `/` and `?` is its own name |
| `NovelUrl.TrailingSlashGivesEmptyName` | src/main.rs:22-26 | a part before the query that ends in `/` gives the empty name |
| `NovelUrl.QueryIgnored` | src/main.rs:22-27 | appending a query does not change the name |

## Left out

- The HTTP client (user agent, cookie store), `send`, `text`, `bytes` and the retry-on-non-200 loop with its one-second sleep (src/mangalib_api.rs:49-57, 59-62, 78-90) are network I/O and timing. For a chapter URL, `fetch` stands for the body of the eventual 200 response; for the work and chapter-list URLs, for the body of the single response, whatever its status.
- Transport errors are not modelled. For the work and chapter-list requests (src/mangalib_api.rs:61, 68) they would come back as an `Err` through `?`, ahead of `get_data`. For a chapter request (src/mangalib_api.rs:83, 97) they are `expect` panics.
- The chapter futures are awaited one at a time in list order. There is no concurrency, and the model is the sequential loop.
- Parsing JSON text (`serde_json::from_str`) is not modelled: the input is the parsed value, or `None` for text that is not JSON.
- `Json.Serialize` follows serde_json's compact output and string escapes. Numbers are integers only; floating-point numbers are not modelled.
- `Json.Snippet`: the source slices the text by byte index, which would panic inside a multi-byte UTF-8 character. The model takes a prefix of characters.
- The `println!` diagnostics and progress messages are not modelled as output. The snippet that is printed is carried in the `SchemaMismatch` error instead.
- Object keys are not required to be unique. serde_json's map guarantees it, and lookups take the first match.
- `get_image` (PNG re-encoding through the `image` crate) is a foreign library. The cover arrives as bytes.
- The inner workings of the EPUB library are not modelled: `ZipLibrary::new`, `epub_version`, `reftype`, the inline table of contents, `generate` and `File::create` (src/converter.rs:12, 16, 26, 30-31). These are foreign code and file I/O. Writing a file into the archive is the `accepts` parameter, and the result of a successful run is the output file name.
- The archive is assumed to answer a write by its path alone (`accepts: string -> bool`), so the model cannot express an answer that depends on earlier writes, such as a second file under the same name when two chapters share volume and number.
- Command-line parsing with clap and the `tokio::main` orchestration (src/main.rs:12-21, 29-37) are not modelled.
- src/declarative_macros.rs only makes struct fields public. It has no behaviour to model.
