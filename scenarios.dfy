/** Worked examples: a title scan, a folder walk and the two routes on concrete inputs. */
module Scenarios {
  import opened Io
  import opened Markdown
  import opened Loader
  import opened Routes

  /** A paragraph, then `# Hello `x` World`, then a second H1. */
  function HeadingDoc(): seq<Event> {
    [Start(OtherTag), Text("intro"), End(OtherTag),
     Start(Heading(H1)), Text("Hello "), Code("x"), Text("World"), End(Heading(H1)),
     Start(Heading(H1)), Text("Second"), End(Heading(H1))]
  }

  /** Only the first heading's text events count, inline code among them is dropped,
      and the second heading is ignored. */
  lemma FirstHeadingExample()
    ensures Title(HeadingDoc()) == "Hello World"
  {
    var pre := [Start(OtherTag), Text("intro"), End(OtherTag)];
    var body := [Text("Hello "), Code("x"), Text("World")];
    var post := [Start(Heading(H1)), Text("Second"), End(Heading(H1))];
    assert HeadingDoc() == pre + [Start(Heading(H1))] + body + [End(Heading(H1))] + post;
    TitleOfFirstHeading(pre, body, post);
    BodyTexts(body);
  }

  lemma BodyTexts(body: seq<Event>)
    requires body == [Text("Hello "), Code("x"), Text("World")]
    ensures Texts(body) == "Hello World"
  {
    assert TextsIn(body, 0, 1) == "Hello ";
    assert TextsIn(body, 0, 2) == "Hello ";
  }

  /** A document whose only heading is an H2 has no title. */
  lemma NoH1Example()
    ensures Title([Start(Heading(H2)), Text("Sub"), End(Heading(H2))]) == ""
  {
    NoHeadingNoTitle([Start(Heading(H2)), Text("Sub"), End(Heading(H2))]);
  }

  /** A path that is not a directory leaves the cache as it was. */
  lemma NotADirectoryExample(cm: Cmark)
    ensures Load(map[], Folder("notes.md", false, Ok([])), cm)
         == LoadOutcome(map[], Err(IoError(InvalidInput, "Error: notes.md is not a directory")))
  {
    assert "Error: " + "notes.md" + " is not a directory" == "Error: notes.md is not a directory";
  }

  /** A folder holding `a.md`, `a.txt`, a sub-directory `sub.md` and `b.md`: the load
      succeeds and caches exactly `a` and `b`, `a` from `a.md`. */
  lemma FolderExample(cm: Cmark)
    ensures Load(map[], Folder("notes", true, Ok(Listing())), cm).status == Ok(())
    ensures Load(map[], Folder("notes", true, Ok(Listing())), cm).docs.Keys == {"a", "b"}
    ensures Load(map[], Folder("notes", true, Ok(Listing())), cm).docs["a"]
         == ParseMarkdown("a", Readable("# A"), cm).value
  {
    var entries := Listing();
    LoadSucceedsIff(map[], entries, cm);
    assert !Fails(entries[0]) && !Fails(entries[1]) && !Fails(entries[2]) && !Fails(entries[3]);
    LoadKeys(map[], entries, cm);
    assert Stems(entries) == {"a", "b"} by {
      assert Eligible(entries[0]) && Eligible(entries[3]);
      assert !Eligible(entries[1]) && !Eligible(entries[2]);
    }
    LoadLastWriteWins(map[], entries, cm, 0);
  }

  function Listing(): seq<DirEntry> {
    [Entry(true, "a", Some("md"), Readable("# A")),
     Entry(true, "a", Some("txt"), Readable("plain")),
     Entry(false, "sub", Some("md"), Readable("")),
     Entry(true, "b", Some("md"), Readable("b"))]
  }

  /** An unreadable `c.md` between `a.md` and `b.md`: its read error is returned, `a`
      stays in the cache and `b` is never reached. */
  lemma UnreadableExample(cm: Cmark, e: IoError)
    ensures Load(map[], Folder("notes", true, Ok(BrokenListing(e))), cm).status == Err(e)
    ensures "a" in Load(map[], Folder("notes", true, Ok(BrokenListing(e))), cm).docs
    ensures "b" !in Load(map[], Folder("notes", true, Ok(BrokenListing(e))), cm).docs
  {
    var entries := BrokenListing(e);
    LoadFailsAtFirst(map[], entries, 1, cm);
    assert entries[..1][..0] == [];
    assert LoadEntries(map[], entries[..1], cm).docs.Keys == {"a"};
  }

  function BrokenListing(e: IoError): seq<DirEntry> {
    [Entry(true, "a", Some("md"), Readable("# A")),
     Entry(true, "c", Some("md"), Unreadable(e)),
     Entry(true, "b", Some("md"), Readable("b"))]
  }

  /** `a.md` holds `# Alpha`, `b.md` holds a plain paragraph. */
  function TwoNotes(): seq<DirEntry> {
    [Entry(true, "a", Some("md"), Readable("# Alpha")),
     Entry(true, "b", Some("md"), Readable("just text"))]
  }

  /** Loading the two notes caches exactly `a` and `b`. The page of `a` is titled `Alpha`.
      The page of `b`, which has no heading, is titled with its stem `b`. Each page's body
      is the fragment the library renders for the note. */
  lemma TwoNotesExample(cm: Cmark)
    requires cm.events("# Alpha") == [Start(Heading(H1)), Text("Alpha"), End(Heading(H1))]
    requires cm.events("just text") == [Start(OtherTag), Text("just text"), End(OtherTag)]
    ensures Load(map[], Folder("notes", true, Ok(TwoNotes())), cm).status == Ok(())
    ensures Load(map[], Folder("notes", true, Ok(TwoNotes())), cm).docs.Keys == {"a", "b"}
    ensures PageParts(Lookup(Load(map[], Folder("notes", true, Ok(TwoNotes())), cm).docs, "a"))
         == Some(("Alpha", cm.html("# Alpha")))
    ensures PageParts(Lookup(Load(map[], Folder("notes", true, Ok(TwoNotes())), cm).docs, "b"))
         == Some(("b", cm.html("just text")))
  {
    var docs := Load(map[], Folder("notes", true, Ok(TwoNotes())), cm).docs;
    TwoNotesLoaded(cm);
    AlphaTitle(cm.events("# Alpha"));
    NoHeadingNoTitle(cm.events("just text"));
    NotePage("a", "# Alpha", cm, docs["a"]);
    NotePage("b", "just text", cm, docs["b"]);
  }

  lemma TwoNotesLoaded(cm: Cmark)
    ensures Load(map[], Folder("notes", true, Ok(TwoNotes())), cm).status == Ok(())
    ensures Load(map[], Folder("notes", true, Ok(TwoNotes())), cm).docs.Keys == {"a", "b"}
    ensures Load(map[], Folder("notes", true, Ok(TwoNotes())), cm).docs["a"]
         == ParseMarkdown("a", Readable("# Alpha"), cm).value
    ensures Load(map[], Folder("notes", true, Ok(TwoNotes())), cm).docs["b"]
         == ParseMarkdown("b", Readable("just text"), cm).value
  {
    var entries := TwoNotes();
    LoadSucceedsIff(map[], entries, cm);
    LoadKeys(map[], entries, cm);
    assert Stems(entries) == {"a", "b"} by {
      assert Eligible(entries[0]) && Eligible(entries[1]);
    }
    LoadLastWriteWins(map[], entries, cm, 0);
    LoadLastWriteWins(map[], entries, cm, 1);
  }

  /** The page stored for a note whose short title cannot hold `</title>`. */
  lemma NotePage(stem: string, text: string, cm: Cmark, info: MarkdownInfo)
    requires info == ParseMarkdown(stem, Readable(text), cm).value
    requires |ShownTitle(Title(cm.events(text)), stem)| < |TitleClose|
    ensures PageParts(info.htmlContent)
         == Some((ShownTitle(Title(cm.events(text)), stem), cm.html(text)))
  {
    ParseReadable(stem, text, cm);
  }

  lemma AlphaTitle(ev: seq<Event>)
    requires ev == [Start(Heading(H1)), Text("Alpha"), End(Heading(H1))]
    ensures Title(ev) == "Alpha"
  {
    TitleOfFirstHeading([], [Text("Alpha")], []);
    assert [] + [Start(Heading(H1))] + [Text("Alpha")] + [End(Heading(H1))] + [] == ev;
    assert TextsIn([Text("Alpha")], 0, 0) == "";
  }

  /** The index of a cache holding one note `a` titled `Alpha` lists exactly its item. */
  lemma OneNoteIndexExample(page: string)
    ensures IsEnumeration(["a"], map["a" := MarkdownInfo("Alpha", page)])
    ensures IndexItems(IndexPage(map["a" := MarkdownInfo("Alpha", page)], ["a"]))
         == Some(["<li><a href=\"/a\">a - Alpha</a></li>"])
  {
    var docs := map["a" := MarkdownInfo("Alpha", page)];
    assert IsEnumeration(["a"], docs);
    OneNoteClean(docs, page);
    IndexRoundTrip(docs, ["a"]);
    OneNoteItems(docs, page);
  }

  lemma OneNoteClean(docs: map<string, MarkdownInfo>, page: string)
    requires docs == map["a" := MarkdownInfo("Alpha", page)]
    ensures forall k :: k in docs ==> '\n' !in k && '\n' !in docs[k].title
  {
    assert docs.Keys == {"a"};
  }

  lemma OneNoteItems(docs: map<string, MarkdownInfo>, page: string)
    requires docs == map["a" := MarkdownInfo("Alpha", page)]
    ensures Covered(docs, ["a"])
    ensures ItemLines(docs, ["a"]) == ["<li><a href=\"/a\">a - Alpha</a></li>"]
  {
    assert ItemLines(docs, ["a"]) == [ItemLine("a", docs["a"])];
    assert Label(docs["a"]) == "Alpha";
    assert ItemLine("a", docs["a"]) == "<li><a href=\"/a\">a - Alpha</a></li>";
  }

  /** `GET /missing` on an empty cache. */
  lemma MissingExample()
    ensures Lookup(map[], "missing") == "<h1>File not found: missing</h1>"
  {
  }

  /** The index line of a document without a title. */
  lemma UntitledItemExample(page: string)
    ensures ItemLine("a", MarkdownInfo("", page)) == "<li><a href=\"/a\">a - [No title]</a></li>"
  {
  }
}
