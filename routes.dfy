/** The two routes over the cache: a document by name, and the index of all documents. */
module Routes {
  import opened Io
  import opened Text
  import opened Markdown
  import opened Loader

  // ---------------------------------------------------------------------------
  // GET /<name>
  // ---------------------------------------------------------------------------

  const MissOpen: string := "<h1>File not found: "
  const MissClose: string := "</h1>"

  /** The reply for a name the cache does not hold. */
  function NotFoundPage(name: string): string {
    MissOpen + name + MissClose
  }

  /** Reads the name back out of a not-found reply; `None` for any other page. */
  function NotFoundName(page: string): Option<string> {
    if StartsWith(page, MissOpen) && |MissOpen| + |MissClose| <= |page| && EndsWith(page, MissClose)
    then Some(page[|MissOpen|..|page| - |MissClose|])
    else None
  }

  /** The `files` route: the stored page of a cached name, verbatim, or the not-found reply
      naming what was asked for. */
  function Lookup(docs: map<string, MarkdownInfo>, name: string): (page: string)
    ensures name in docs ==> page == docs[name].htmlContent
    ensures name !in docs ==> NotFoundName(page) == Some(name)
  {
    if name in docs then docs[name].htmlContent
    else
      Framed(MissOpen, name, MissClose);
      NotFoundPage(name)
  }

  /** On a cache built by the loader, a reply is a not-found reply exactly when the name is
      missing: stored pages begin with the document header, never with `<h1>`. */
  lemma LookupMissIff(docs: map<string, MarkdownInfo>, name: string)
    requires WellFormed(docs)
    ensures NotFoundName(Lookup(docs, name)).Some? <==> name !in docs
  {
    if name in docs {
      StoredPageIsNoMiss(docs[name], name);
    }
  }

  lemma StoredPageIsNoMiss(info: MarkdownInfo, stem: string)
    requires IsPageOf(info, stem)
    ensures NotFoundName(info.htmlContent) == None
  {
    var fragment :| info.htmlContent == Shell(info.title, stem, fragment);
    StoredPageStart(info.title, stem, fragment);
    assert MissOpen[1] == 'h';
  }

  lemma StoredPageStart(title: string, stem: string, fragment: string)
    ensures |Shell(title, stem, fragment)| > 1 && Shell(title, stem, fragment)[1] == '!'
  {
    PrefixOfConcat(DocHead, ShownTitle(title, stem), DocStyle, fragment, DocTail);
    assert DocHead[1] == '!';
  }

  lemma PrefixOfConcat<T>(a: seq<T>, b: seq<T>, c: seq<T>, d: seq<T>, e: seq<T>)
    ensures |a| <= |a + b + c + d + e| && forall i :: 0 <= i < |a| ==> (a + b + c + d + e)[i] == a[i]
  {
  }

  // ---------------------------------------------------------------------------
  // GET /
  // ---------------------------------------------------------------------------

  const IndexHead: string := "<!DOCTYPE html>\n<html>\n<head>\n<title>Markdown Files</title>\n<style>\n"
    + "body { font-family: Arial, sans-serif; line-height: 1.6; padding: 20px; max-width: 800px; margin: 0 auto; }\n"
    + "li { margin-bottom: 8px; }\n"
    + "</style>\n</head>\n<body>\n<h1>Available Files</h1>\n<ul>\n"
  const IndexTail: string := "\n</ul>\n</body>\n</html>"
  const NoTitle: string := "[No title]"

  /** What the index shows after the name: the title, or `[No title]` when it is empty. */
  function Label(info: MarkdownInfo): (shown: string)
    ensures shown != ""
    ensures info.title != "" ==> shown == info.title
    ensures info.title == "" ==> shown == NoTitle
  {
    if info.title == "" then NoTitle else info.title
  }

  /** One list item linking to a cached document. */
  function ItemLine(name: string, info: MarkdownInfo): string {
    "<li><a href=\"/" + name + "\">" + name + " - " + Label(info) + "</a></li>"
  }

  /** `order` is an order in which the map's iterator may yield its keys: each key once. */
  predicate IsEnumeration(order: seq<string>, docs: map<string, MarkdownInfo>) {
    (forall i, j :: 0 <= i < j < |order| ==> order[i] != order[j])
    && (forall i :: 0 <= i < |order| ==> order[i] in docs)
    && (forall k :: k in docs ==> k in order)
  }

  /** The list items in iteration order. */
  function ItemLines(docs: map<string, MarkdownInfo>, order: seq<string>): (lines: seq<string>)
    requires Covered(docs, order)
    ensures |lines| == |order|
  {
    if order == [] then [] else [ItemLine(order[0], docs[order[0]])] + ItemLines(docs, order[1..])
  }

  /** The item at each position is the line of the name at that position. */
  lemma {:induction false} ItemLinesAt(docs: map<string, MarkdownInfo>, order: seq<string>)
    requires Covered(docs, order)
    ensures forall i :: 0 <= i < |order| ==>
              ItemLines(docs, order)[i] == ItemLine(order[i], docs[order[i]])
    decreases |order|
  {
    if order != [] {
      ItemLinesAt(docs, order[1..]);
    }
  }

  /** The `index` route: the items joined by newlines inside the fixed page. */
  function IndexPage(docs: map<string, MarkdownInfo>, order: seq<string>): string
    requires IsEnumeration(order, docs)
  {
    IndexHead + Join(ItemLines(docs, order), "\n") + IndexTail
  }

  /** Reads the list items back out of an index page. */
  function IndexItems(page: string): Option<seq<string>> {
    if StartsWith(page, IndexHead) && |IndexHead| + |IndexTail| <= |page| && EndsWith(page, IndexTail)
    then
      var list := page[|IndexHead|..|page| - |IndexTail|];
      Some(if list == "" then [] else Split(list, '\n'))
    else None
  }

  /** An enumeration visits every key exactly once, so it is as long as the map is large. */
  lemma EnumerationSize(order: seq<string>, docs: map<string, MarkdownInfo>)
    requires IsEnumeration(order, docs)
    ensures |order| == |docs|
  {
    var keys := set i | 0 <= i < |order| :: order[i];
    assert keys == docs.Keys;
    DistinctSize(order);
  }

  lemma {:induction false} DistinctSize(s: seq<string>)
    requires forall i, j :: 0 <= i < j < |s| ==> s[i] != s[j]
    ensures |set i | 0 <= i < |s| :: s[i]| == |s|
    decreases |s|
  {
    if s != [] {
      var init := s[..|s| - 1];
      DistinctSize(init);
      var a := set i | 0 <= i < |init| :: init[i];
      var b := set i | 0 <= i < |s| :: s[i];
      assert b == a + {s[|s| - 1]};
      assert s[|s| - 1] !in a;
    }
  }

  /** The index has exactly one item per cached document, each naming and linking it and
      showing its label, and every item is one of these. */
  lemma IndexOnePerEntry(docs: map<string, MarkdownInfo>, order: seq<string>)
    requires IsEnumeration(order, docs)
    ensures |ItemLines(docs, order)| == |docs|
    ensures forall k :: k in docs ==> ItemLine(k, docs[k]) in ItemLines(docs, order)
    ensures forall line :: line in ItemLines(docs, order) ==>
              exists k :: k in docs && line == ItemLine(k, docs[k])
  {
    EnumerationSize(order, docs);
    ItemLinesAt(docs, order);
    var lines := ItemLines(docs, order);
    forall k | k in docs
      ensures ItemLine(k, docs[k]) in lines
    {
      var i :| 0 <= i < |order| && order[i] == k;
      assert lines[i] == ItemLine(k, docs[k]);
    }
  }

  /** Any two iteration orders list the same items, possibly in another order. */
  lemma IndexOrderIrrelevant(docs: map<string, MarkdownInfo>, o1: seq<string>, o2: seq<string>)
    requires IsEnumeration(o1, docs) && IsEnumeration(o2, docs)
    ensures multiset(ItemLines(docs, o1)) == multiset(ItemLines(docs, o2))
  {
    EnumerationMultiset(o1, docs);
    EnumerationMultiset(o2, docs);
    LinesFollowNames(docs, o1, o2);
  }

  /** Every enumeration has the same multiset of names: the keys, each once. */
  lemma EnumerationMultiset(order: seq<string>, docs: map<string, MarkdownInfo>)
    requires IsEnumeration(order, docs)
    ensures forall k :: multiset(order)[k] == if k in docs then 1 else 0
  {
    forall k
      ensures multiset(order)[k] == if k in docs then 1 else 0
    {
      DistinctCount(order, k);
    }
  }

  lemma {:induction false} DistinctCount(s: seq<string>, k: string)
    requires forall i, j :: 0 <= i < j < |s| ==> s[i] != s[j]
    ensures multiset(s)[k] == if k in s then 1 else 0
    decreases |s|
  {
    if s != [] {
      var init := s[..|s| - 1];
      assert s == init + [s[|s| - 1]];
      DistinctCount(init, k);
      assert k == s[|s| - 1] ==> k !in init;
    }
  }

  /** Every name of `order` is cached. */
  predicate Covered(docs: map<string, MarkdownInfo>, order: seq<string>) {
    forall i :: 0 <= i < |order| ==> order[i] in docs
  }

  /** Name sequences with the same multiset give item sequences with the same multiset. */
  lemma {:induction false} LinesFollowNames(docs: map<string, MarkdownInfo>, o1: seq<string>, o2: seq<string>)
    requires Covered(docs, o1) && Covered(docs, o2)
    requires multiset(o1) == multiset(o2)
    ensures multiset(ItemLines(docs, o1)) == multiset(ItemLines(docs, o2))
    decreases |o1|
  {
    if o1 != [] {
      var x := o1[0];
      assert x in multiset(o2);
      var i :| 0 <= i < |o2| && o2[i] == x;
      var rest := o2[..i] + o2[i + 1..];
      NamesAfterRemoval(docs, o1, o2, i);
      LinesFollowNames(docs, o1[1..], rest);
      LinesAfterRemoval(docs, o2, i);
      assert ItemLines(docs, o1) == [ItemLine(x, docs[x])] + ItemLines(docs, o1[1..]);
    }
  }

  lemma NamesAfterRemoval(docs: map<string, MarkdownInfo>, o1: seq<string>, o2: seq<string>, i: nat)
    requires Covered(docs, o2) && multiset(o1) == multiset(o2)
    requires o1 != [] && i < |o2| && o2[i] == o1[0]
    ensures Covered(docs, o2[..i] + o2[i + 1..])
    ensures multiset(o1[1..]) == multiset(o2[..i] + o2[i + 1..])
  {
    var pre, post := o2[..i], o2[i + 1..];
    var rest := pre + post;
    assert o1 == [o1[0]] + o1[1..];
    assert multiset(o1) == multiset{o1[0]} + multiset(o1[1..]);
    assert o2 == pre + [o2[i]] + post;
    assert multiset(o2) == multiset(pre) + multiset{o2[i]} + multiset(post);
    assert multiset(rest) == multiset(pre) + multiset(post);
    assert multiset(o1[1..]) == multiset(o1) - multiset{o1[0]};
    assert multiset(rest) == multiset(o2) - multiset{o2[i]};
    forall j | 0 <= j < |rest|
      ensures rest[j] in docs
    {
      if j < i { assert rest[j] == o2[j]; } else { assert rest[j] == o2[j + 1]; }
    }
  }

  lemma LinesAfterRemoval(docs: map<string, MarkdownInfo>, o: seq<string>, i: nat)
    requires Covered(docs, o) && i < |o|
    requires Covered(docs, o[..i] + o[i + 1..])
    ensures multiset(ItemLines(docs, o))
         == multiset(ItemLines(docs, o[..i] + o[i + 1..])) + multiset{ItemLine(o[i], docs[o[i]])}
  {
    var pre, post := o[..i], o[i + 1..];
    assert o == pre + ([o[i]] + post);
    ItemLinesConcat(docs, pre, [o[i]] + post);
    ItemLinesConcat(docs, [o[i]], post);
    ItemLinesConcat(docs, pre, post);
  }

  lemma {:induction false} ItemLinesConcat(docs: map<string, MarkdownInfo>, a: seq<string>, b: seq<string>)
    requires Covered(docs, a) && Covered(docs, b)
    ensures Covered(docs, a + b)
    ensures ItemLines(docs, a + b) == ItemLines(docs, a) + ItemLines(docs, b)
    decreases |a|
  {
    if a != [] {
      assert (a + b)[0] == a[0];
      assert (a + b)[1..] == a[1..] + b;
      ItemLinesConcat(docs, a[1..], b);
      var line := ItemLine(a[0], docs[a[0]]);
      assert ItemLines(docs, a + b) == [line] + (ItemLines(docs, a[1..]) + ItemLines(docs, b));
      assert ItemLines(docs, a) == [line] + ItemLines(docs, a[1..]);
      assert [line] + (ItemLines(docs, a[1..]) + ItemLines(docs, b))
          == ([line] + ItemLines(docs, a[1..])) + ItemLines(docs, b);
    } else {
      assert a + b == b;
    }
  }

  /** An empty cache gives an index with no items, which is not an error. */
  lemma EmptyIndex()
    ensures IsEnumeration([], map[])
    ensures IndexPage(map[], []) == IndexHead + IndexTail
    ensures IndexItems(IndexPage(map[], [])) == Some([])
  {
    assert IndexHead + "" + IndexTail == IndexHead + IndexTail;
    Framed(IndexHead, "", IndexTail);
  }

  /** When no name or title holds a line break, the items can be read back from the page,
      in iteration order. */
  lemma IndexRoundTrip(docs: map<string, MarkdownInfo>, order: seq<string>)
    requires IsEnumeration(order, docs)
    requires forall k :: k in docs ==> '\n' !in k && '\n' !in docs[k].title
    ensures IndexItems(IndexPage(docs, order)) == Some(ItemLines(docs, order))
  {
    var lines := ItemLines(docs, order);
    ItemLinesAt(docs, order);
    Framed(IndexHead, Join(lines, "\n"), IndexTail);
    if lines != [] {
      forall i | 0 <= i < |lines|
        ensures '\n' !in lines[i]
      {
        NoBreakInLine(order[i], docs[order[i]]);
      }
      SplitJoin(lines, '\n');
      assert Join(lines, "\n") != "" by {
        assert lines[0] != "";
        JoinStartsWithFirst(lines, "\n");
      }
    }
  }

  /** Read back from the index page, the item at each position links the name at that
      position and shows its title, or `[No title]` when the title is empty. */
  lemma IndexShowsLabels(docs: map<string, MarkdownInfo>, order: seq<string>)
    requires IsEnumeration(order, docs)
    requires forall k :: k in docs ==> '\n' !in k && '\n' !in docs[k].title
    ensures IndexItems(IndexPage(docs, order)).Some?
    ensures |IndexItems(IndexPage(docs, order)).value| == |order| == |docs|
    ensures forall i :: 0 <= i < |order| ==>
              IndexItems(IndexPage(docs, order)).value[i]
              == "<li><a href=\"/" + order[i] + "\">" + order[i] + " - "
                 + (if docs[order[i]].title == "" then "[No title]" else docs[order[i]].title)
                 + "</a></li>"
  {
    IndexRoundTrip(docs, order);
    ItemLinesAt(docs, order);
    EnumerationSize(order, docs);
  }

  /** Every cache has an order in which its iterator may yield the keys, so the index
      page is defined for every cache. */
  lemma {:induction false} EnumerationExists(docs: map<string, MarkdownInfo>)
    ensures exists order :: IsEnumeration(order, docs)
    decreases |docs|
  {
    if docs == map[] {
      assert IsEnumeration([], docs);
    } else {
      var k :| k in docs;
      var rest := docs - {k};
      assert rest.Keys == docs.Keys - {k};
      assert |rest| < |docs| by {
        assert |rest.Keys| == |docs.Keys| - 1;
      }
      EnumerationExists(rest);
      var o :| IsEnumeration(o, rest);
      var order := [k] + o;
      assert forall i :: 1 <= i < |order| ==> order[i] == o[i - 1];
      assert IsEnumeration(order, docs);
    }
  }

  lemma NoBreakInLine(name: string, info: MarkdownInfo)
    requires '\n' !in name && '\n' !in info.title
    ensures '\n' !in ItemLine(name, info)
  {
  }

  lemma JoinStartsWithFirst(parts: seq<string>, sep: string)
    requires parts != []
    ensures |Join(parts, sep)| >= |parts[0]|
  {
  }
}
