/** `load_markdown_files`: the folder check, the directory walk that keeps the `.md`
    files, and the cache it fills, with what a load leaves in the cache. */
module Loader {
  import opened Io
  import opened Markdown

  /** One item of the directory listing: the error `read_dir` reports for it, or a path
      with what `is_file`, `file_stem`, `extension` and `read_to_string` say about it. */
  datatype DirEntry =
    | BrokenEntry(error: IoError)
    | Entry(isFile: bool, stem: string, extension: Option<string>, content: FileContent)

  /** The folder argument: whether `is_dir` holds for it and what `read_dir` yields. */
  datatype Folder = Folder(path: string, isDir: bool, listing: Result<seq<DirEntry>>)

  /** What a load leaves behind: the cache contents and the returned status. */
  datatype LoadOutcome = LoadOutcome(docs: map<string, MarkdownInfo>, status: Result<()>)

  /** The cache behind the lock: file stem to converted document. */
  class HtmlCache {
    var docs: map<string, MarkdownInfo>

    constructor()
      ensures docs == map[]
    {
      docs := map[];
    }

    /** `HashMap::insert`: adds the key or overwrites its value. */
    method Insert(name: string, info: MarkdownInfo)
      modifies this
      ensures docs == old(docs)[name := info]
    {
      docs := docs[name := info];
    }
  }

  /** A regular file whose extension is exactly `md`. */
  predicate Eligible(e: DirEntry) {
    e.Entry? && e.isFile && e.extension == Some("md")
  }

  /** An entry that makes the walk stop: a listing error, or a kept file that cannot be read. */
  predicate Fails(e: DirEntry) {
    e.BrokenEntry? || (Eligible(e) && e.content.Unreadable?)
  }

  function FailureOf(e: DirEntry): IoError
    requires Fails(e)
  {
    if e.BrokenEntry? then e.error else e.content.error
  }

  /** The error for a path that is not a directory. */
  function NotADirectory(path: string): IoError {
    IoError(InvalidInput, "Error: " + path + " is not a directory")
  }

  /** One turn of the walk over the cache contents `docs`. */
  function Step(docs: map<string, MarkdownInfo>, e: DirEntry, cm: Cmark): LoadOutcome {
    if e.BrokenEntry? then LoadOutcome(docs, Err(e.error))
    else if !Eligible(e) then LoadOutcome(docs, Ok(()))
    else
      match ParseMarkdown(e.stem, e.content, cm)
      case Err(error) => LoadOutcome(docs, Err(error))
      case Ok(info) => LoadOutcome(docs[e.stem := info], Ok(()))
  }

  /** The walk over `entries` from the cache contents `docs`, stopping at the first error. */
  function LoadEntries(docs: map<string, MarkdownInfo>, entries: seq<DirEntry>, cm: Cmark): LoadOutcome
    decreases |entries|
  {
    if entries == [] then LoadOutcome(docs, Ok(()))
    else
      var before := LoadEntries(docs, entries[..|entries| - 1], cm);
      if before.status.Err? then before
      else Step(before.docs, entries[|entries| - 1], cm)
  }

  /** `load_markdown_files` over a cache holding `docs`. */
  function Load(docs: map<string, MarkdownInfo>, folder: Folder, cm: Cmark): LoadOutcome {
    if !folder.isDir then LoadOutcome(docs, Err(NotADirectory(folder.path)))
    else
      match folder.listing
      case Err(error) => LoadOutcome(docs, Err(error))
      case Ok(entries) => LoadEntries(docs, entries, cm)
  }

  /** `load_markdown_files`: check the folder, then walk its entries, inserting each
      converted `.md` file under its stem; any error ends the walk, and the inserts
      made before it stay in the cache. */
  method LoadMarkdownFiles(folder: Folder, cache: HtmlCache, cm: Cmark) returns (result: Result<()>)
    modifies cache
    ensures LoadOutcome(cache.docs, result) == Load(old(cache.docs), folder, cm)
  {
    if !folder.isDir {
      return Err(NotADirectory(folder.path));
    }
    if folder.listing.Err? {
      return Err(folder.listing.error);
    }
    var entries := folder.listing.value;
    var i := 0;
    while i < |entries|
      invariant i <= |entries|
      invariant LoadEntries(old(cache.docs), entries[..i], cm) == LoadOutcome(cache.docs, Ok(()))
    {
      var entry := entries[i];
      assert entries[..i + 1][..i] == entries[..i];
      if entry.BrokenEntry? {
        LoadStops(old(cache.docs), entries, i + 1, cm);
        return Err(entry.error);
      }
      if entry.isFile && entry.extension == Some("md") {
        var fileName := entry.stem;
        var parsed := ParseMarkdownFile(entry.stem, entry.content, cm);
        if parsed.Err? {
          LoadStops(old(cache.docs), entries, i + 1, cm);
          return Err(parsed.error);
        }
        cache.Insert(fileName, parsed.value);
      }
      i := i + 1;
    }
    assert entries[..i] == entries;
    return Ok(());
  }

  // ---------------------------------------------------------------------------
  // What a load leaves in the cache
  // ---------------------------------------------------------------------------

  /** The stems of the kept files among `entries`. */
  function Stems(entries: seq<DirEntry>): set<string> {
    set j | 0 <= j < |entries| && Eligible(entries[j]) :: entries[j].stem
  }

  /** Once the walk has failed, later entries change nothing. */
  lemma {:induction false} LoadStops(docs: map<string, MarkdownInfo>, entries: seq<DirEntry>, n: nat, cm: Cmark)
    requires n <= |entries|
    requires LoadEntries(docs, entries[..n], cm).status.Err?
    ensures LoadEntries(docs, entries, cm) == LoadEntries(docs, entries[..n], cm)
    decreases |entries| - n
  {
    if n < |entries| {
      assert entries[..n + 1][..n] == entries[..n];
      LoadStops(docs, entries, n + 1, cm);
    } else {
      assert entries[..n] == entries;
    }
  }

  /** The walk succeeds exactly when no entry is a listing error or an unreadable `.md` file. */
  lemma {:induction false} LoadSucceedsIff(docs: map<string, MarkdownInfo>, entries: seq<DirEntry>, cm: Cmark)
    ensures LoadEntries(docs, entries, cm).status.Ok?
        <==> forall j :: 0 <= j < |entries| ==> !Fails(entries[j])
    decreases |entries|
  {
    if entries != [] {
      var init := entries[..|entries| - 1];
      LoadSucceedsIff(docs, init, cm);
      assert forall j :: 0 <= j < |init| ==> init[j] == entries[j];
    }
  }

  /** A failing walk reports the first failing entry's error and leaves the cache as the
      entries before it made it. */
  lemma LoadFailsAtFirst(docs: map<string, MarkdownInfo>, entries: seq<DirEntry>, j: nat, cm: Cmark)
    requires j < |entries| && Fails(entries[j])
    requires forall l :: 0 <= l < j ==> !Fails(entries[l])
    ensures LoadEntries(docs, entries, cm)
         == LoadOutcome(LoadEntries(docs, entries[..j], cm).docs, Err(FailureOf(entries[j])))
  {
    LoadSucceedsIff(docs, entries[..j], cm);
    assert entries[..j + 1][..j] == entries[..j];
    LoadStops(docs, entries, j + 1, cm);
  }

  /** After a successful walk the keys are the old keys and the stems of the kept files. */
  lemma {:induction false} LoadKeys(docs: map<string, MarkdownInfo>, entries: seq<DirEntry>, cm: Cmark)
    requires LoadEntries(docs, entries, cm).status.Ok?
    ensures LoadEntries(docs, entries, cm).docs.Keys == docs.Keys + Stems(entries)
    decreases |entries|
  {
    if entries != [] {
      var init := entries[..|entries| - 1];
      LoadKeys(docs, init, cm);
      StemsSnoc(init, entries[|entries| - 1]);
      assert init + [entries[|entries| - 1]] == entries;
    }
  }

  lemma StemsSnoc(init: seq<DirEntry>, e: DirEntry)
    ensures Stems(init + [e]) == Stems(init) + (if Eligible(e) then {e.stem} else {})
  {
    var all := init + [e];
    assert forall j :: 0 <= j < |init| ==> all[j] == init[j];
    assert all[|init|] == e;
  }

  /** A key that no kept file has keeps its old value (and stays absent if it was),
      whether the walk succeeds or fails. */
  lemma {:induction false} LoadUntouched(docs: map<string, MarkdownInfo>, entries: seq<DirEntry>, cm: Cmark, k: string)
    requires k !in Stems(entries)
    ensures k in LoadEntries(docs, entries, cm).docs <==> k in docs
    ensures k in docs ==> LoadEntries(docs, entries, cm).docs[k] == docs[k]
    decreases |entries|
  {
    if entries != [] {
      var init := entries[..|entries| - 1];
      StemsSnoc(init, entries[|entries| - 1]);
      assert init + [entries[|entries| - 1]] == entries;
      LoadUntouched(docs, init, cm, k);
    }
  }

  /** The last kept file with a given stem decides its value: later inserts overwrite. */
  lemma {:induction false} LoadLastWriteWins(docs: map<string, MarkdownInfo>, entries: seq<DirEntry>, cm: Cmark, j: nat)
    requires LoadEntries(docs, entries, cm).status.Ok?
    requires j < |entries| && Eligible(entries[j])
    requires forall l :: j < l < |entries| && Eligible(entries[l]) ==> entries[l].stem != entries[j].stem
    ensures ParseMarkdown(entries[j].stem, entries[j].content, cm).Ok?
    ensures entries[j].stem in LoadEntries(docs, entries, cm).docs
    ensures LoadEntries(docs, entries, cm).docs[entries[j].stem]
         == ParseMarkdown(entries[j].stem, entries[j].content, cm).value
    decreases |entries|
  {
    var init := entries[..|entries| - 1];
    if j < |init| {
      assert init[j] == entries[j];
      assert forall l :: j < l < |init| ==> init[l] == entries[l];
      LoadLastWriteWins(docs, init, cm, j);
    }
  }

  /** The cache the program builds at start-up, from an empty map: its keys are exactly
      the stems of the `.md` files of the folder. */
  lemma LoadFromEmpty(folder: Folder, cm: Cmark)
    requires Load(map[], folder, cm).status.Ok?
    ensures folder.isDir && folder.listing.Ok?
    ensures Load(map[], folder, cm).docs.Keys == Stems(folder.listing.value)
  {
    LoadKeys(map[], folder.listing.value, cm);
  }

  /** Every value in the cache is the page of its own key: the shell around the title
      it records, with the key as the fallback title. */
  ghost predicate WellFormed(docs: map<string, MarkdownInfo>) {
    forall k :: k in docs ==> IsPageOf(docs[k], k)
  }

  ghost predicate IsPageOf(info: MarkdownInfo, stem: string) {
    exists fragment :: info.htmlContent == Shell(info.title, stem, fragment)
  }

  lemma ParsedIsPage(stem: string, content: FileContent, cm: Cmark)
    requires ParseMarkdown(stem, content, cm).Ok?
    ensures IsPageOf(ParseMarkdown(stem, content, cm).value, stem)
  {
    var info := ParseMarkdown(stem, content, cm).value;
    assert info.htmlContent == Shell(info.title, stem, cm.html(content.text));
  }

  lemma WellFormedUpdate(docs: map<string, MarkdownInfo>, k: string, info: MarkdownInfo)
    requires WellFormed(docs) && IsPageOf(info, k)
    ensures WellFormed(docs[k := info])
  {
  }

  lemma StepKeepsWellFormed(docs: map<string, MarkdownInfo>, e: DirEntry, cm: Cmark)
    requires WellFormed(docs)
    ensures WellFormed(Step(docs, e, cm).docs)
  {
    if Eligible(e) && e.content.Readable? {
      ParsedIsPage(e.stem, e.content, cm);
      WellFormedUpdate(docs, e.stem, ParseMarkdown(e.stem, e.content, cm).value);
    }
  }

  /** Loading keeps every cached value a page of its key, whether it succeeds or fails. */
  lemma {:induction false} LoadKeepsWellFormed(docs: map<string, MarkdownInfo>, entries: seq<DirEntry>, cm: Cmark)
    requires WellFormed(docs)
    ensures WellFormed(LoadEntries(docs, entries, cm).docs)
    decreases |entries|
  {
    if entries != [] {
      var init := entries[..|entries| - 1];
      LoadKeepsWellFormed(docs, init, cm);
      var before := LoadEntries(docs, init, cm);
      if before.status.Ok? {
        StepKeepsWellFormed(before.docs, entries[|entries| - 1], cm);
      }
    }
  }
}
