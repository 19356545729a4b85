# zettelviewer, modelled in Dafny

zettelviewer serves a folder of Markdown notes over HTTP. At start-up it checks that
the folder argument is a directory. It then walks the folder and converts every regular
file whose extension is exactly `md`. Each page goes into an in-memory cache keyed by the
file stem. A page's title is the text of its first level-1 heading, or the stem when there
is none. Two routes read the cache:

- `/<name>` returns the stored page, or a short "File not found" reply;
- `/` returns an index with one list item per cached note.

The model follows `src/main.rs` in six modules:

- `Io`: the `Option` and `Result` types, and `std::io::Error` as a kind plus a message.
- `Text`: string helpers. These are `IndexOf`, `Join` and `Split`, and a generic reader
  for a text framed by fixed strings, with its round-trip lemma.
- `Markdown`: the parser's event stream and the first-H1 title scan.
  - The scan is the method `ExtractTitle`, proved equal to the declarative function `Title`.
  - `Title` is the concatenation of the `Text` events between the first H1 start and the
    first H1 end.
  - Also here: the HTML shell around a rendered fragment, its reader `PageParts`, and
    `parse_markdown_file`.
- `Loader`: `load_markdown_files`.
  - The cache is a class `HtmlCache` whose field `docs` is a `map` from stem to note.
  - The method `LoadMarkdownFiles` walks the listing and is proved against the
    functions `LoadEntries` and `Load`.
  - Lemmas state which keys a load leaves, that later files win, that errors stop the
    walk, and that every cached page is the shell of its own key.
- `Routes`: the two routes.
  - `Lookup` and its inverse `NotFoundName`.
  - `ItemLine`, `ItemLines` and `IndexPage`, with the reader `IndexItems`.
  - `HashMap` iteration order is a parameter `order`: any sequence that lists every key
    exactly once (`IsEnumeration`).
- `Scenarios`: concrete walks through the code.

There are three abstractions:

- The markdown library (`pulldown_cmark`) is a value `Cmark` of two total functions:
  the event stream of a text, and the HTML fragment `push_html` renders for it.
- A directory listing is a `Folder` value. A listed path is a `DirEntry` value carrying
  what `is_file`, `file_stem`, `extension` and `read_to_string` report for it.
- The order of `read_dir` is the order of the listing sequence.

For a note without a level-1 heading, the index shows the literal `[No title]`
(src/main.rs:53), while the page's `<title>` shows the stem (src/main.rs:153).

## Model

| member | source | states |
|---|---|---|
| `Markdown.ExtractTitle` | src/main.rs:120-139 | The loop over the events returns exactly `Title(events)`: the text of the `Text` events after the first H1 start and before the first H1 end. It is empty when an H1 end comes first or no H1 starts. `Code` and other events add nothing. |
| `Markdown.TitleOfFirstHeading` | src/main.rs:125-136 | Suppose there is no H1 start or end before the heading, and no H1 end inside it. Then the title is the concatenation of the `Text` events of the heading body, whatever follows. |
| `Markdown.TitleIgnoresLaterEvents` | src/main.rs:133-136 | Once a stream contains an H1 end, appending any events leaves the title unchanged (the `break`). |
| `Markdown.NoHeadingNoTitle` | src/main.rs:122-139 | A stream with no H1 start yields the empty title. |
| `Markdown.TextOutsideHeadingIgnored` | src/main.rs:130-132 | A `Text` event inserted before the first H1 start, or after the first H1 end, does not change the title. |
| `Markdown.TextInsideHeadingAppended` | src/main.rs:130-132 | A `Text` event inserted inside the first heading adds its text to the title at that position. The title becomes the text before the insertion point, then the new text, then the rest. |
| `Markdown.ShellRoundTrip` | src/main.rs:146-155 | Reading the wrapped page back gives two parts. The text of `<title>` is the title when it is non-empty and the stem otherwise. The body is the fragment, unchanged. This needs a shown title that does not itself contain `</title>`. |
| `Markdown.ParseMarkdownFile` | src/main.rs:109-158 | A read error is returned as is. Otherwise the result is the raw title from the scan, with the shell around the rendered fragment (`ParseMarkdown`). |
| `Markdown.ShownTitle` | src/main.rs:153 | The title shown in `<title>`: the title, or the stem when the title is empty. A definition with no contract of its own; `ShellRoundTrip` and `Scenarios.TwoNotesExample` prove what a reader sees. |
| `Markdown.Shell` | src/main.rs:147-155 | The page wrapped around a fragment. A definition with no contract of its own; `ShellRoundTrip` proves it can be read back, and `Routes.LookupMissIff` that it never looks like a not-found reply. |
| `Markdown.ParseReadableTitle` | src/main.rs:111-157 | Any readable file converts with no requirement on its text. The stored title is the raw scan result, possibly empty, and the page is the shell of that title, the stem and the fragment. |
| `Markdown.ParseReadable` | src/main.rs:141-157 | A readable file always converts. The stored title is the raw scan result, even when it is empty. The page shows the title or the stem, and its body is the library's fragment. |
| `Loader.HtmlCache.constructor` | src/main.rs:27 | The cache starts empty. |
| `Loader.HtmlCache.Insert` | src/main.rs:96-99 | The key is added, or its value overwritten. Every other key is unchanged. |
| `Loader.LoadMarkdownFiles` | src/main.rs:76-107 | The final cache and the returned status are exactly `Load` of the old cache. A non-directory gives an `InvalidInput` error with the message `Error: <path> is not a directory`, and the cache is untouched. A failing `read_dir` returns its error. The walk inserts each converted `.md` file under its stem and stops at the first error, keeping the inserts made before it. |
| `Loader.Step` | src/main.rs:89-99 | One turn of the walk. A definition with no contract of its own; `LoadSucceedsIff`, `LoadKeys` and `LoadLastWriteWins` prove what the turns add up to. |
| `Loader.LoadEntries` | src/main.rs:88-103 | The walk over a listing, stopping at the first error. A definition with no contract of its own; see `LoadStops`, `LoadSucceedsIff`, `LoadFailsAtFirst`, `LoadKeys`, `LoadUntouched` and `LoadLastWriteWins`. |
| `Loader.Load` | src/main.rs:76-107 | The whole load, folder check included. A definition with no contract of its own; `LoadMarkdownFiles` is proved equal to it and `LoadFromEmpty` states its start-up result. |
| `Loader.LoadStops` | src/main.rs:88-94 | Once the walk has failed, later entries change neither the cache nor the status. |
| `Loader.LoadSucceedsIff` | src/main.rs:88-103 | The walk succeeds if and only if no entry is a listing error or an unreadable `.md` file. Both directions are proved. |
| `Loader.LoadFailsAtFirst` | src/main.rs:88-94 | A failing walk returns the error of the first failing entry. The cache is what the entries before that one made it. |
| `Loader.LoadKeys` | src/main.rs:92-99 | After a successful walk, the keys are the previous keys plus the stems of the regular `.md` files, and nothing else. |
| `Loader.LoadUntouched` | src/main.rs:92-99 | A key that no kept file has keeps its old value and presence, whether the walk succeeds or fails. |
| `Loader.LoadLastWriteWins` | src/main.rs:96-99 | After a successful walk, a stem maps to the conversion of the last kept file with that stem. |
| `Loader.LoadFromEmpty` | src/main.rs:27-33 | When the start-up load from an empty cache succeeds, its keys are exactly the stems of the folder's regular `.md` files. |
| `Loader.ParsedIsPage` | src/main.rs:147-157 | A converted file's page is the shell around its own title, with its stem as the fallback. |
| `Loader.LoadKeepsWellFormed` | src/main.rs:94-99 | Loading keeps every cached page the shell of its own key. This holds on success and on failure. |
| `Routes.NotFoundPage` | src/main.rs:42 | The not-found reply. A definition with no contract of its own; `Routes.Lookup` shows that `NotFoundName` reads the name back from it. |
| `Routes.Lookup` | src/main.rs:39-43 | A cached name returns its page verbatim. A missing name returns `<h1>File not found: <name></h1>`, from which `NotFoundName` reads the name back. |
| `Routes.LookupMissIff` | src/main.rs:40-42 | On a cache built by the loader, a reply is a not-found reply if and only if the name is missing. Stored pages start with `<!DOCTYPE`, never with `<h1>`. |
| `Routes.ItemLine` | src/main.rs:50-54 | One list item. A definition with no contract of its own; `ItemLinesAt` places it and `IndexShowsLabels` proves what the page shows for each note. |
| `Routes.ItemLines` | src/main.rs:48-56 | There is one item per name of the iteration order. |
| `Routes.ItemLinesAt` | src/main.rs:49-55 | The item at each position is `<li><a href="/name">name - label</a></li>` for the name at that position. |
| `Routes.IndexOnePerEntry` | src/main.rs:48-57 | The index has exactly as many items as the cache has entries. Every cached note has its item, and every item belongs to a cached note. |
| `Routes.IndexOrderIrrelevant` | src/main.rs:48 | Any two iteration orders list the same multiset of items. |
| `Routes.IndexPage` | src/main.rs:46-65 | The index route. A definition with no contract of its own; see `IndexRoundTrip`, `IndexShowsLabels`, `EmptyIndex` and `EnumerationExists`. |
| `Routes.IndexShowsLabels` | src/main.rs:48-65 | Read back from the index page, the items are as many as the cached notes. The item at each position is `<li><a href="/name">name - label</a></li>` for the name at that position. The label is the title, or `[No title]` when the title is empty. This needs names and titles without line breaks. |
| `Routes.EnumerationExists` | src/main.rs:48 | Every cache has an order that lists each key exactly once, so the index page is defined for every cache. |
| `Routes.EmptyIndex` | src/main.rs:46-65 | An empty cache gives the fixed page with an empty list, and reading it back gives no items. |
| `Routes.IndexRoundTrip` | src/main.rs:57-65 | The items can be read back from the index page, in iteration order. This needs names and titles without line breaks. |
| `Text.SplitJoin` | src/main.rs:57 | Splitting a newline-joined list of pieces at the newline gives the pieces back, when no piece holds a newline. |
| `Scenarios.FirstHeadingExample` | src/main.rs:125-139 | On a paragraph, then `# Hello` + inline code + `World`, then a second H1, the title is `Hello World`. |
| `Scenarios.NoH1Example` | src/main.rs:127 | A document whose only heading is an H2 has the empty title. |
| `Scenarios.NotADirectoryExample` | src/main.rs:79-84 | `notes.md` given as the folder yields `InvalidInput` with the message `Error: notes.md is not a directory`, and the cache stays empty. |
| `Scenarios.FolderExample` | src/main.rs:88-103 | A folder with `a.md`, `a.txt`, a directory `sub.md` and `b.md` loads successfully. It caches exactly `a` and `b`, with `a` taken from `a.md`. |
| `Scenarios.UnreadableExample` | src/main.rs:94 | With an unreadable `c.md` between `a.md` and `b.md`, the read error is returned. `a` stays cached and `b` is never reached. |
| `Scenarios.TwoNotesExample` | src/main.rs:88-155 | Loading `a.md` (`# Alpha`) and `b.md` (no heading) caches exactly `a` and `b`. Serving `a` gives a page whose `<title>` reads `Alpha`. Serving `b` gives a page titled `b`. Each body is the note's rendered fragment. |
| `Scenarios.OneNoteIndexExample` | src/main.rs:46-65 | The index of a cache holding one note `a` titled `Alpha` reads back as exactly `<li><a href="/a">a - Alpha</a></li>`. |
| `Scenarios.MissingExample` | src/main.rs:42 | `GET /missing` on an empty cache answers `<h1>File not found: missing</h1>`. |
| `Scenarios.UntitledItemExample` | src/main.rs:50-53 | The index item of an untitled note `a` is `<li><a href="/a">a - [No title]</a></li>`. |

## Left out

- The HTTP server is not modelled: warp, tokio, the route combinator `index.or(files)`, URL path decoding and the port. `Lookup` and `IndexPage` take the already-decoded name and the cache contents.
- The `Arc<Mutex<...>>` around the cache is not modelled: lock poisoning, the `unwrap` on `lock()` and concurrent requests. The cache is one `HtmlCache` object, and the routes read its `docs` map.
- The command line is not modelled: the argument count check, the usage message, `process::exit` and all `println!`/`eprintln!` output. `LoadFromEmpty` covers what `main` relies on from the load.
- Filesystem calls are values, not effects. `is_dir`, `read_dir`, a failing `entry?`, `is_file`, `extension`, `file_stem` and `read_to_string` are fields of `Folder` and `DirEntry`.
- The order of `read_dir` is the order of the listing sequence; the operating system decides it.
- `to_string_lossy` is not modelled: stems are strings already, so the replacement of non-UTF-8 bytes is not captured.
- `pulldown_cmark` is left abstract: `Parser::new_ext` with its options and `html::push_html` are the two functions of `Cmark`.
  - The model assumes both passes over the same text see the same events.
  - The scan is modelled on events only. Event kinds it ignores become `OtherEvent`. Tags other than headings become `OtherTag`. A heading's id and classes are dropped.
- `HashMap` iteration order is a parameter. The index properties are stated for every order that lists each key once.
- The CSS text is kept as the source has it, inside constants. Nothing is proved about it beyond the page layout.
- Markdown.ShellRoundTrip: reading the page back requires a shown title without `</title>`. The program does not escape the title, so such a title ends the `<title>` element early.
- Markdown.ParseReadable: has the same requirement, for the same reason.
- Routes.IndexRoundTrip: requires names and titles without line breaks. Such text would spread one item over several lines of the list.
- Routes.IndexShowsLabels: has the same requirement, for the same reason.
- Names in links and titles are not HTML-escaped or URL-encoded in the source, and the model leaves them unescaped too.
