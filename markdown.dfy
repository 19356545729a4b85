/** The per-file converter: the first-H1 title scan over the markdown event stream,
    the HTML document shell around the rendered fragment, and the converter that
    puts the two together for one file. */
module Markdown {
  import opened Io
  import opened Text

  // ---------------------------------------------------------------------------
  // The event stream of the markdown parser
  // ---------------------------------------------------------------------------

  datatype HeadingLevel = H1 | H2 | H3 | H4 | H5 | H6

  /** The tags the title scan distinguishes; every other tag (paragraph, emphasis,
      link, list, table, ...) is `OtherTag`. */
  datatype Tag = Heading(level: HeadingLevel) | OtherTag

  /** The parser's events as far as the title scan tells them apart: inline code
      is kept apart from text because the scan ignores it. */
  datatype Event =
    | Start(tag: Tag)
    | End(tag: Tag)
    | Text(text: string)
    | Code(code: string)
    | OtherEvent

  /** The external markdown library with the options the program enables (tables,
      footnotes, strikethrough, task lists): the event stream of a text and the HTML
      fragment `push_html` writes for it. Both are deterministic functions of the text. */
  datatype Cmark = Cmark(events: string -> seq<Event>, html: string -> string)

  /** What the cache keeps per file. */
  datatype MarkdownInfo = MarkdownInfo(title: string, htmlContent: string)

  /** The two events the title scan reacts to besides text. */
  datatype Marker = H1Start | H1End

  /** `e` is the event the marker stands for. */
  predicate Marks(m: Marker, e: Event) {
    match m
    case H1Start => e == Start(Heading(H1))
    case H1End => e == End(Heading(H1))
  }

  /** The index of the first event at or after `k` that `m` marks, or `|ev|` if there is none. */
  function FindFrom(ev: seq<Event>, m: Marker, k: nat): (n: nat)
    requires k <= |ev|
    ensures k <= n <= |ev|
    ensures n < |ev| ==> Marks(m, ev[n])
    decreases |ev| - k
  {
    if k == |ev| then k
    else if Marks(m, ev[k]) then k
    else FindFrom(ev, m, k + 1)
  }

  /** The index of the first event that `m` marks, or `|ev|` if there is none. */
  function FirstIndex(ev: seq<Event>, m: Marker): nat {
    FindFrom(ev, m, 0)
  }

  function TextOf(e: Event): string {
    if e.Text? then e.text else ""
  }

  /** The `Text` payloads of the events at indices `lo` up to `hi`, concatenated in order. */
  function TextsIn(ev: seq<Event>, lo: nat, hi: nat): string
    requires lo <= hi <= |ev|
    decreases hi - lo
  {
    if lo == hi then "" else TextsIn(ev, lo, hi - 1) + TextOf(ev[hi - 1])
  }

  /** The `Text` payloads of all of `ev`, concatenated in order. */
  function Texts(ev: seq<Event>): string {
    TextsIn(ev, 0, |ev|)
  }

  /** The title of a document: the text runs between the first H1 start and the first
      H1 end, or "" when no H1 start comes before the first H1 end. */
  function Title(ev: seq<Event>): string {
    var start := FirstIndex(ev, H1Start);
    var end := FirstIndex(ev, H1End);
    if start < end then TextsIn(ev, start + 1, end) else ""
  }

  // ---------------------------------------------------------------------------
  // The title scan
  // ---------------------------------------------------------------------------

  /** No event between `k` and the first match after it is marked. */
  lemma {:induction false} FindFromMinimal(ev: seq<Event>, m: Marker, k: nat, j: nat)
    requires k <= |ev| && k <= j < FindFrom(ev, m, k)
    ensures !Marks(m, ev[j])
    decreases j - k
  {
    if k < j {
      FindFromMinimal(ev, m, k + 1, j);
    }
  }

  /** Scanning past index `i` either finds the first marked event there or moves on. */
  lemma FirstIndexStep(ev: seq<Event>, i: nat, m: Marker)
    requires i < |ev| && i <= FirstIndex(ev, m)
    ensures Marks(m, ev[i]) <==> FirstIndex(ev, m) == i
  {
    if i < FirstIndex(ev, m) {
      FindFromMinimal(ev, m, 0, i);
    }
  }

  lemma TextsNext(ev: seq<Event>, lo: nat, hi: nat)
    requires lo <= hi < |ev|
    ensures TextsIn(ev, lo, hi + 1)
         == if ev[hi].Text? then TextsIn(ev, lo, hi) + ev[hi].text else TextsIn(ev, lo, hi)
  {
    assert TextsIn(ev, lo, hi) + "" == TextsIn(ev, lo, hi);
  }

  /** The scan state after the events before `i`, when the first H1 end has not been reached. */
  predicate Scanned(ev: seq<Event>, i: nat, inHeading: bool, title: string) {
    i <= FirstIndex(ev, H1End) && i <= |ev|
    && (inHeading <==> FirstIndex(ev, H1Start) < i)
    && title == if inHeading then TextsIn(ev, FirstIndex(ev, H1Start) + 1, i) else ""
  }
  lemma StartStep(ev: seq<Event>, i: nat, inHeading: bool, title: string)
    requires Scanned(ev, i, inHeading, title) && i < |ev| && Marks(H1Start, ev[i])
    ensures Scanned(ev, i + 1, true, title)
  {
    if !inHeading {
      FirstIndexStep(ev, i, H1Start);
    } else {
      TextsNext(ev, FirstIndex(ev, H1Start) + 1, i);
    }
    FirstIndexStep(ev, i, H1End);
  }
  lemma TextStep(ev: seq<Event>, i: nat, title: string)
    requires Scanned(ev, i, true, title) && i < |ev| && ev[i].Text?
    ensures Scanned(ev, i + 1, true, title + ev[i].text)
  {
    TextsNext(ev, FirstIndex(ev, H1Start) + 1, i);
    FirstIndexStep(ev, i, H1End);
  }
  lemma EndStep(ev: seq<Event>, i: nat, inHeading: bool, title: string)
    requires Scanned(ev, i, inHeading, title) && i < |ev| && Marks(H1End, ev[i])
    ensures title == Title(ev)
  {
    FirstIndexStep(ev, i, H1End);
  }
  lemma OtherStep(ev: seq<Event>, i: nat, inHeading: bool, title: string)
    requires Scanned(ev, i, inHeading, title) && i < |ev|
    requires !Marks(H1Start, ev[i]) && !Marks(H1End, ev[i]) && !(ev[i].Text? && inHeading)
    ensures Scanned(ev, i + 1, inHeading, title)
  {
    if !inHeading {
      FirstIndexStep(ev, i, H1Start);
    } else {
      TextsNext(ev, FirstIndex(ev, H1Start) + 1, i);
    }
    FirstIndexStep(ev, i, H1End);
  }
  lemma Finished(ev: seq<Event>, inHeading: bool, title: string)
    requires Scanned(ev, |ev|, inHeading, title)
    ensures title == Title(ev)
  {
  }
  /** The title scan of `parse_markdown_file`: a loop over the events with the state
      `title` and `inHeading`, leaving at the first H1 end. */
  method ExtractTitle(events: seq<Event>) returns (title: string)
    ensures title == Title(events)
  {
    title := "";
    var inHeading := false;
    var i := 0;
    while i < |events|
      invariant Scanned(events, i, inHeading, title)
    {
      // the arms of `parse_markdown_file`'s `match`, in their order
      var event := events[i];
      if event == Start(Heading(H1)) {
        StartStep(events, i, inHeading, title);
        inHeading := true;
      } else if event.Text? && inHeading {
        TextStep(events, i, title);
        title := title + event.text;
      } else if event == End(Heading(H1)) {
        EndStep(events, i, inHeading, title);
        inHeading := false;
        break;
      } else {
        OtherStep(events, i, inHeading, title);
      }
      i := i + 1;
    }
    if i == |events| {
      Finished(events, inHeading, title);
    }
  }

  // ---------------------------------------------------------------------------
  // Facts about the title
  // ---------------------------------------------------------------------------

  /** `a` holds the events `b[lo..hi]` shifted right by `d` places. */
  predicate Agree(a: seq<Event>, b: seq<Event>, d: nat, lo: nat, hi: nat) {
    lo <= hi <= |b| && hi + d <= |a| && forall j :: lo <= j < hi ==> a[j + d] == b[j]
  }

  lemma {:induction false} TextsShift(a: seq<Event>, b: seq<Event>, d: nat, lo: nat, hi: nat)
    requires Agree(a, b, d, lo, hi)
    ensures TextsIn(a, lo + d, hi + d) == TextsIn(b, lo, hi)
    decreases hi - lo
  {
    if lo < hi {
      var h := hi - 1;
      assert a[h + d] == b[h];
      TextsShift(a, b, d, lo, h);
      assert TextsIn(a, lo + d, hi + d) == TextsIn(a, lo + d, h + d) + TextOf(a[h + d]);
    }
  }

  /** A scan over events that agree finds a match at corresponding places, or none. */
  lemma {:induction false} FindShift(a: seq<Event>, b: seq<Event>, m: Marker, d: nat, lo: nat, hi: nat)
    requires Agree(a, b, d, lo, hi)
    ensures FindFrom(b, m, lo) < hi ==> FindFrom(a, m, lo + d) == FindFrom(b, m, lo) + d
    ensures FindFrom(b, m, lo) >= hi ==> FindFrom(a, m, lo + d) == FindFrom(a, m, hi + d)
    decreases hi - lo
  {
    if lo < hi {
      assert a[lo + d] == b[lo];
      if Marks(m, b[lo]) {
        assert FindFrom(b, m, lo) == lo;
        assert FindFrom(a, m, lo + d) == lo + d;
      } else {
        FindShift(a, b, m, d, lo + 1, hi);
        assert FindFrom(b, m, lo) == FindFrom(b, m, lo + 1);
        assert FindFrom(a, m, lo + d) == FindFrom(a, m, lo + 1 + d);
      }
    }
  }

  lemma {:induction false} TextsSplit(ev: seq<Event>, lo: nat, mid: nat, hi: nat)
    requires lo <= mid <= hi <= |ev|
    ensures TextsIn(ev, lo, hi) == TextsIn(ev, lo, mid) + TextsIn(ev, mid, hi)
    decreases hi - mid
  {
    if mid < hi {
      TextsSplit(ev, lo, mid, hi - 1);
      var a, b, c := TextsIn(ev, lo, mid), TextsIn(ev, mid, hi - 1), TextOf(ev[hi - 1]);
      assert (a + b) + c == a + (b + c);
    }
  }

  lemma {:induction false} FindAbsent(ev: seq<Event>, m: Marker, k: nat)
    requires k <= |ev|
    requires forall e :: e in ev ==> !Marks(m, e)
    ensures FindFrom(ev, m, k) == |ev|
    decreases |ev| - k
  {
    if k < |ev| {
      assert ev[k] in ev;
      FindAbsent(ev, m, k + 1);
    }
  }

  /** The title is the text of the first level-one heading: whatever precedes its start
      (as long as it holds no H1 start or end) and whatever follows its end play no part. */
  lemma TitleOfFirstHeading(pre: seq<Event>, body: seq<Event>, post: seq<Event>)
    requires Start(Heading(H1)) !in pre && End(Heading(H1)) !in pre
    requires End(Heading(H1)) !in body
    ensures Title(pre + [Start(Heading(H1))] + body + [End(Heading(H1))] + post) == Texts(body)
  {
    var ev := pre + [Start(Heading(H1))] + body + [End(Heading(H1))] + post;
    FirstHeadingAgree(pre, body, post);
    FirstHeadingStart(ev, pre);
    FirstHeadingEnd(ev, pre, body);
    TextsShift(ev, body, |pre| + 1, 0, |body|);
  }

  lemma FirstHeadingAgree(pre: seq<Event>, body: seq<Event>, post: seq<Event>)
    ensures Agree(pre + [Start(Heading(H1))] + body + [End(Heading(H1))] + post, pre, 0, 0, |pre|)
    ensures Agree(pre + [Start(Heading(H1))] + body + [End(Heading(H1))] + post, body, |pre| + 1, 0, |body|)
    ensures (pre + [Start(Heading(H1))] + body + [End(Heading(H1))] + post)[|pre|] == Start(Heading(H1))
    ensures (pre + [Start(Heading(H1))] + body + [End(Heading(H1))] + post)[|pre| + 1 + |body|] == End(Heading(H1))
  {
  }

  lemma FirstHeadingStart(ev: seq<Event>, pre: seq<Event>)
    requires Agree(ev, pre, 0, 0, |pre|) && |pre| < |ev| && ev[|pre|] == Start(Heading(H1))
    requires Start(Heading(H1)) !in pre
    ensures FirstIndex(ev, H1Start) == |pre|
  {
    FindAbsent(pre, H1Start, 0);
    FindShift(ev, pre, H1Start, 0, 0, |pre|);
  }

  lemma FirstHeadingEnd(ev: seq<Event>, pre: seq<Event>, body: seq<Event>)
    requires Agree(ev, body, |pre| + 1, 0, |body|) && |pre| + 1 + |body| < |ev|
    requires Agree(ev, pre, 0, 0, |pre|) && ev[|pre|] == Start(Heading(H1))
    requires ev[|pre| + 1 + |body|] == End(Heading(H1))
    requires End(Heading(H1)) !in pre && End(Heading(H1)) !in body
    ensures FirstIndex(ev, H1End) == |pre| + 1 + |body|
  {
    FindAbsent(pre, H1End, 0);
    FindShift(ev, pre, H1End, 0, 0, |pre|);
    FindAbsent(body, H1End, 0);
    FindShift(ev, body, H1End, |pre| + 1, 0, |body|);
  }

  /** Once the first H1 has ended, further events have no effect on the title. */
  lemma TitleIgnoresLaterEvents(ev: seq<Event>, rest: seq<Event>)
    requires FirstIndex(ev, H1End) < |ev|
    ensures Title(ev + rest) == Title(ev)
  {
    assert Agree(ev + rest, ev, 0, 0, |ev|);
    TitleOfExtension(ev + rest, ev);
  }

  lemma TitleOfExtension(big: seq<Event>, ev: seq<Event>)
    requires Agree(big, ev, 0, 0, |ev|) && FirstIndex(ev, H1End) < |ev|
    ensures Title(big) == Title(ev)
  {
    FindShift(big, ev, H1Start, 0, 0, |ev|);
    FindShift(big, ev, H1End, 0, 0, |ev|);
    if FirstIndex(ev, H1Start) < FirstIndex(ev, H1End) {
      TitleOfExtensionInside(big, ev);
    }
  }

  lemma TitleOfExtensionInside(big: seq<Event>, ev: seq<Event>)
    requires Agree(big, ev, 0, 0, |ev|)
    requires FirstIndex(big, H1Start) == FirstIndex(ev, H1Start) < FirstIndex(ev, H1End)
    requires FirstIndex(big, H1End) == FirstIndex(ev, H1End)
    ensures Title(big) == Title(ev)
  {
    var s, e := FirstIndex(ev, H1Start), FirstIndex(ev, H1End);
    AgreeWithin(big, ev, 0, 0, |ev|, s + 1, e);
    TextsShift(big, ev, 0, s + 1, e);
  }

  /** Without an H1 start the title is empty. */
  lemma NoHeadingNoTitle(ev: seq<Event>)
    requires Start(Heading(H1)) !in ev
    ensures Title(ev) == ""
  {
    FindAbsent(ev, H1Start, 0);
  }

  /** The events with `x` inserted at index `i`. */
  function InsertEvent(ev: seq<Event>, i: nat, x: Event): (r: seq<Event>)
    requires i <= |ev|
    ensures Inserted(r, ev, i, x)
  {
    ev[..i] + [x] + ev[i..]
  }

  /** `ev'` is `ev` with `x` inserted at index `i`, described place by place. */
  predicate Inserted(ev': seq<Event>, ev: seq<Event>, i: nat, x: Event) {
    i <= |ev| && |ev'| == |ev| + 1 && ev'[i] == x
    && Agree(ev', ev, 0, 0, i) && Agree(ev', ev, 1, i, |ev|)
  }

  lemma AgreeWithin(a: seq<Event>, b: seq<Event>, d: nat, lo: nat, hi: nat, lo': nat, hi': nat)
    requires Agree(a, b, d, lo, hi) && lo <= lo' <= hi' <= hi
    ensures Agree(a, b, d, lo', hi')
  {
  }

  /** Skipping events before the first match does not change it. */
  lemma {:induction false} FindSkip(ev: seq<Event>, m: Marker, k: nat, k': nat)
    requires k <= k' <= |ev| && k' <= FindFrom(ev, m, k)
    ensures FindFrom(ev, m, k) == FindFrom(ev, m, k')
    decreases k' - k
  {
    if k < k' {
      FindSkip(ev, m, k + 1, k');
    }
  }

  lemma FindInsertedBefore(ev': seq<Event>, ev: seq<Event>, i: nat, x: Event, m: Marker)
    requires Inserted(ev', ev, i, x) && FirstIndex(ev, m) < i
    ensures FirstIndex(ev', m) == FirstIndex(ev, m)
  {
    FindShift(ev', ev, m, 0, 0, i);
  }

  lemma FindInsertedAfter(ev': seq<Event>, ev: seq<Event>, i: nat, x: Event, m: Marker)
    requires Inserted(ev', ev, i, x) && !Marks(m, x) && i <= FirstIndex(ev, m)
    ensures FirstIndex(ev', m) == FirstIndex(ev, m) + 1
  {
    FindShift(ev', ev, m, 0, 0, i);
    FindSkip(ev, m, 0, i);
    FindShift(ev', ev, m, 1, i, |ev|);
  }

  /** Inserting an event that `m` does not mark moves a first match at or after the
      insertion point by one place and leaves an earlier one where it is. */
  lemma FindInserted(ev': seq<Event>, ev: seq<Event>, i: nat, x: Event, m: Marker)
    requires Inserted(ev', ev, i, x) && !Marks(m, x)
    ensures FirstIndex(ev', m)
         == if FirstIndex(ev, m) < i then FirstIndex(ev, m) else FirstIndex(ev, m) + 1
  {
    if FirstIndex(ev, m) < i {
      FindInsertedBefore(ev', ev, i, x, m);
    } else {
      FindInsertedAfter(ev', ev, i, x, m);
    }
  }

  lemma TitleInsertedOutside(ev': seq<Event>, ev: seq<Event>, i: nat, t: string)
    requires Inserted(ev', ev, i, Text(t))
    requires i <= FirstIndex(ev, H1Start) || FirstIndex(ev, H1End) < i
    ensures Title(ev') == Title(ev)
  {
    FindInserted(ev', ev, i, Text(t), H1Start);
    FindInserted(ev', ev, i, Text(t), H1End);
    var s, e := FirstIndex(ev, H1Start), FirstIndex(ev, H1End);
    if s < e && i <= s {
      TitleInsertedBefore(ev', ev, i, t);
    } else if s < e {
      TitleInsertedAfter(ev', ev, i, t);
    }
  }

  lemma TitleInsertedBefore(ev': seq<Event>, ev: seq<Event>, i: nat, t: string)
    requires Inserted(ev', ev, i, Text(t))
    requires i <= FirstIndex(ev, H1Start) < FirstIndex(ev, H1End)
    requires FirstIndex(ev', H1Start) == FirstIndex(ev, H1Start) + 1
    requires FirstIndex(ev', H1End) == FirstIndex(ev, H1End) + 1
    ensures Title(ev') == Title(ev)
  {
    var s, e := FirstIndex(ev, H1Start), FirstIndex(ev, H1End);
    AgreeWithin(ev', ev, 1, i, |ev|, s + 1, e);
    TextsShift(ev', ev, 1, s + 1, e);
  }

  lemma TitleInsertedAfter(ev': seq<Event>, ev: seq<Event>, i: nat, t: string)
    requires Inserted(ev', ev, i, Text(t))
    requires FirstIndex(ev, H1Start) < FirstIndex(ev, H1End) < i
    requires FirstIndex(ev', H1Start) == FirstIndex(ev, H1Start)
    requires FirstIndex(ev', H1End) == FirstIndex(ev, H1End)
    ensures Title(ev') == Title(ev)
  {
    var s, e := FirstIndex(ev, H1Start), FirstIndex(ev, H1End);
    AgreeWithin(ev', ev, 0, 0, i, s + 1, e);
    TextsShift(ev', ev, 0, s + 1, e);
  }

  /** A text run outside the first H1 (before its start, after its end, or anywhere
      when there is none) leaves the title unchanged. */
  lemma TextOutsideHeadingIgnored(ev: seq<Event>, i: nat, t: string)
    requires i <= |ev|
    requires i <= FirstIndex(ev, H1Start) || FirstIndex(ev, H1End) < i
    ensures Title(InsertEvent(ev, i, Text(t))) == Title(ev)
  {
    TitleInsertedOutside(InsertEvent(ev, i, Text(t)), ev, i, t);
  }

  /** The texts over a range holding an inserted text run. */
  lemma TextsInserted(ev': seq<Event>, ev: seq<Event>, i: nat, t: string, lo: nat, hi: nat)
    requires Inserted(ev', ev, i, Text(t)) && lo <= i <= hi <= |ev|
    ensures TextsIn(ev', lo, hi + 1) == TextsIn(ev, lo, i) + t + TextsIn(ev, i, hi)
  {
    TextsAround(ev', lo, i, hi + 1);
    assert TextsIn(ev', i, i + 1) == t;
    AgreeWithin(ev', ev, 0, 0, i, lo, i);
    TextsShift(ev', ev, 0, lo, i);
    AgreeWithin(ev', ev, 1, i, |ev|, i, hi);
    TextsShift(ev', ev, 1, i, hi);
  }

  /** The texts over a range split around the event at `i`. */
  lemma TextsAround(ev: seq<Event>, lo: nat, i: nat, hi: nat)
    requires lo <= i < hi <= |ev|
    ensures TextsIn(ev, lo, hi) == TextsIn(ev, lo, i) + TextsIn(ev, i, i + 1) + TextsIn(ev, i + 1, hi)
  {
    TextsSplit(ev, lo, i, hi);
    TextsSplit(ev, i, i + 1, hi);
    var a, b, c := TextsIn(ev, lo, i), TextsIn(ev, i, i + 1), TextsIn(ev, i + 1, hi);
    assert a + (b + c) == a + b + c;
  }

  lemma TitleInsertedInside(ev': seq<Event>, ev: seq<Event>, i: nat, t: string)
    requires Inserted(ev', ev, i, Text(t))
    requires FirstIndex(ev, H1Start) < i <= FirstIndex(ev, H1End)
    ensures Title(ev')
         == TextsIn(ev, FirstIndex(ev, H1Start) + 1, i) + t + TextsIn(ev, i, FirstIndex(ev, H1End))
  {
    FindInsertedBefore(ev', ev, i, Text(t), H1Start);
    FindInsertedAfter(ev', ev, i, Text(t), H1End);
    TextsInserted(ev', ev, i, t, FirstIndex(ev, H1Start) + 1, FirstIndex(ev, H1End));
  }

  /** A text run inside the first H1 is appended to the title at its place in order. */
  lemma TextInsideHeadingAppended(ev: seq<Event>, i: nat, t: string)
    requires FirstIndex(ev, H1Start) < i <= FirstIndex(ev, H1End)
    ensures Title(InsertEvent(ev, i, Text(t)))
         == TextsIn(ev, FirstIndex(ev, H1Start) + 1, i) + t + TextsIn(ev, i, FirstIndex(ev, H1End))
  {
    TitleInsertedInside(InsertEvent(ev, i, Text(t)), ev, i, t);
  }

  // ---------------------------------------------------------------------------
  // The HTML document shell
  // ---------------------------------------------------------------------------

  const DocHead: string := "<!DOCTYPE html>\n" + "<html>\n<head>\n<meta charset=\"UTF-8\">\n<title>"
  const TitleClose: string := "</title>"
  const DocStyle: string := TitleClose + "\n<style>\n"
    + "body { font-family: Arial, sans-serif; line-height: 1.6; padding: 20px; max-width: 800px; margin: 0 auto; }\n"
    + "pre { background-color: #f4f4f4; padding: 12px; border-radius: 4px; overflow-x: auto; }\n"
    + "code { background-color: #f4f4f4; padding: 2px 4px; border-radius: 4px; }\n"
    + "</style>\n</head>\n<body>\n"
  const DocTail: string := "\n</body>\n</html>"

  /** The text of the `<title>` element: the extracted title, or the file stem when it is empty. */
  function ShownTitle(title: string, stem: string): string {
    if title == "" then stem else title
  }

  /** The complete page stored for one file around the fragment the library rendered. */
  function Shell(title: string, stem: string, fragment: string): string {
    DocHead + ShownTitle(title, stem) + DocStyle + fragment + DocTail
  }

  /** Reads a page back as a browser would: the text of its `<title>` element (up to the
      first `</title>`) and the body fragment between the style block and the closing tags. */
  function PageParts(page: string): Option<(string, string)> {
    SplitFrame(page, DocHead, TitleClose, DocStyle, DocTail)
  }

  /** The shell is read back as the shown title and the fragment, as long as the shown
      title does not itself close the `<title>` element (the title is not escaped). */
  lemma ShellRoundTrip(title: string, stem: string, fragment: string)
    requires Avoids(ShownTitle(title, stem), TitleClose)
    ensures PageParts(Shell(title, stem, fragment))
         == Some((if title == "" then stem else title, fragment))
  {
    assert Unbordered(TitleClose);
    assert StartsWith(DocStyle, TitleClose) by {
      assert DocStyle[..|TitleClose|] == TitleClose;
    }
    SplitFrameRoundTrip(DocHead, ShownTitle(title, stem), TitleClose, DocStyle, fragment, DocTail);
  }

  // ---------------------------------------------------------------------------
  // Converting one file
  // ---------------------------------------------------------------------------

  /** What `parse_markdown_file` yields for a file with stem `stem`: the read error, or the
      raw extracted title with the complete page. */
  function ParseMarkdown(stem: string, content: FileContent, cm: Cmark): Result<MarkdownInfo> {
    match content
    case Unreadable(error) => Err(error)
    case Readable(text) =>
      var title := Title(cm.events(text));
      Ok(MarkdownInfo(title, Shell(title, stem, cm.html(text))))
  }

  /** `parse_markdown_file`: read the file (failing with its read error), scan the events
      for the title, render the fragment and wrap it in the shell. */
  method ParseMarkdownFile(stem: string, content: FileContent, cm: Cmark) returns (r: Result<MarkdownInfo>)
    ensures r == ParseMarkdown(stem, content, cm)
  {
    if content.Unreadable? {
      return Err(content.error);
    }
    var markdownContent := content.text;
    var title := ExtractTitle(cm.events(markdownContent));
    var htmlOutput := cm.html(markdownContent);
    var htmlContent := Shell(title, stem, htmlOutput);
    return Ok(MarkdownInfo(title, htmlContent));
  }

  /** A readable file always converts, and the title it stores is the raw scan result,
      possibly empty; the stem fallback is only for the page's `<title>`. */
  lemma ParseReadableTitle(stem: string, text: string, cm: Cmark)
    ensures ParseMarkdown(stem, Readable(text), cm).Ok?
    ensures ParseMarkdown(stem, Readable(text), cm).value.title == Title(cm.events(text))
    ensures ParseMarkdown(stem, Readable(text), cm).value.htmlContent
         == Shell(Title(cm.events(text)), stem, cm.html(text))
  {
  }

  /** A readable file yields its raw title (possibly empty) and a page whose `<title>`
      shows that title or, when it is empty, the stem, and whose body is the fragment. */
  lemma ParseReadable(stem: string, text: string, cm: Cmark)
    requires Avoids(ShownTitle(Title(cm.events(text)), stem), TitleClose)
    ensures ParseMarkdown(stem, Readable(text), cm).Ok?
    ensures ParseMarkdown(stem, Readable(text), cm).value.title == Title(cm.events(text))
    ensures PageParts(ParseMarkdown(stem, Readable(text), cm).value.htmlContent)
         == Some((if Title(cm.events(text)) == "" then stem else Title(cm.events(text)), cm.html(text)))
  {
    ShellRoundTrip(Title(cm.events(text)), stem, cm.html(text));
  }
}
