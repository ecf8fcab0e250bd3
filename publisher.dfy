/**
 * The e-book assembly of `create_epub`: the draft text, pages joined by
 * `--- Page N ---` headers, is cut into segments, each usable segment is
 * turned into one XHTML chapter, and the chapters are registered with the
 * book, its table of contents and its spine (reading order). The ebooklib
 * objects are plain values here; writing the archive is not modelled.
 */
module Publisher {
  import opened Text

  /** The separator the draft's pages are split on. */
  const PageMarker: string := "--- Page"

  /** The end of a page header: `--- Page 3 ---` leaves ` 3 ---` after the split. */
  const HeaderEnd: string := "---"

  /** What `set_identifier`, `set_title`, `set_language` and `add_author`
      record on the book. */
  datatype Metadata = Metadata(identifier: string, title: string, language: string, authors: seq<string>)

  const BookMetadata: Metadata :=
    Metadata("id123456", "My Scanned Project", "en", ["Scan2Ebook User"])

  /** A page header number and the page's text, both stripped. */
  datatype Page = Page(number: string, body: string)

  /** An `EpubHtml` document with its content filled in. */
  datatype Chapter = Chapter(title: string, fileName: string, lang: string, content: string)

  /** The items added to the book: the chapters, the NCX and navigation
      documents (opaque here) and the navigation stylesheet. */
  datatype Item =
    | HtmlItem(chapter: Chapter)
    | NcxItem
    | NavItem
    | StyleItem(uid: string, fileName: string, mediaType: string, content: string)

  /** A spine entry: the navigation document (`'nav'`) or a chapter. */
  datatype SpineEntry = NavRef | ChapterRef(chapter: Chapter)

  datatype Book = Book(metadata: Metadata, items: seq<Item>, toc: seq<Chapter>, spine: seq<SpineEntry>)

  const NavStyle: Item :=
    StyleItem("style_nav", "style/nav.css", "text/css",
              "h1 { text-align: center; color: #333; } p { font-family: sans-serif; }")

  /** The items that close the book after the chapters, in the order added. */
  const TrailingItems: seq<Item> := [NcxItem, NavItem, NavStyle]

  /** One segment of the draft as the loop reads it: a blank segment or one
      without a header end is skipped; otherwise the text before the first
      `---` is the page number and the text after it the body. */
  function ParsePage(segment: string): Option<Page> {
    if Strip(segment) == [] then None
    else
      var parts := SplitOnce(segment, HeaderEnd);
      if |parts| < 2 then None
      else Some(Page(Strip(parts[0]), Strip(parts[1])))
  }

  /** A segment yields a page exactly when it is not blank and holds a
      header end; the number is the stripped text before the leftmost
      `---` (so it holds none) and the body the stripped text after it. */
  lemma ParsePageSpec(segment: string)
    ensures ParsePage(segment).Some? <==> !AllSpace(segment) && Contains(segment, HeaderEnd)
    ensures ParsePage(segment).Some? ==>
      var i := Find(segment, HeaderEnd).value;
      var p := ParsePage(segment).value;
      p.number == Strip(segment[..i]) && p.body == Strip(segment[i + |HeaderEnd|..])
    ensures ParsePage(segment).Some? ==> !Contains(ParsePage(segment).value.number, HeaderEnd)
  {
    var parts := SplitOnce(segment, HeaderEnd);
    if |parts| == 2 {
      StripKeepsAbsence(parts[0], HeaderEnd);
    }
  }

  /** The chapter for one page: an `<h1>` with the title, then the body in a
      paragraph with its line breaks turned into `<br>`. */
  function MakeChapter(p: Page): Chapter {
    var title := "Page " + p.number;
    Chapter(title, "page_" + p.number + ".xhtml", "en",
            "<h1>" + title + "</h1><p>" + Replace(p.body, "\n", "<br>") + "</p>")
  }

  /** A page as the page-marking step writes it into the draft:
      `--- Page <number> ---`, then the whitespace `gap`, the body, and the
      whitespace `tail` that runs up to the next header. */
  datatype WrittenPage = WrittenPage(page: Page, gap: string, tail: string)

  /** The segment the split leaves of a written page: the marker is gone. */
  function WrittenSegment(w: WrittenPage): string {
    " " + w.page.number + " ---" + w.gap + w.page.body + w.tail
  }

  /** A written page that reads back as itself: number and body have no
      whitespace at their ends, the number holds no `---`, and only
      whitespace surrounds the body. */
  predicate Readable(w: WrittenPage) {
    && Strip(w.page.number) == w.page.number && !Contains(w.page.number, HeaderEnd)
    && Strip(w.page.body) == w.page.body
    && AllSpace(w.gap) && AllSpace(w.tail)
  }

  /** A readable written page parses back as the page that was written. */
  lemma ParseWrittenPage(w: WrittenPage)
    requires Readable(w)
    ensures ParsePage(WrittenSegment(w)) == Some(w.page)
  {
    SplitWrittenSegment(w);
    StripPadded(w.page.number);
    StripBetweenSpace(w.gap, w.page.body, w.tail);
  }

  /** A written segment is not blank, and its leftmost `---` is the one
      after the number. */
  lemma SplitWrittenSegment(w: WrittenPage)
    requires !Contains(w.page.number, HeaderEnd)
    ensures !AllSpace(WrittenSegment(w))
    ensures SplitOnce(WrittenSegment(w), HeaderEnd) == [" " + w.page.number + " ", w.gap + w.page.body + w.tail]
  {
    var h := " " + w.page.number + " ";
    var rest := w.gap + w.page.body + w.tail;
    var seg := WrittenSegment(w);
    assert seg == h + HeaderEnd + rest;
    assert seg[..|h|] == h && seg[|h|..|h| + 3] == HeaderEnd && seg[|h| + 3..] == rest;
    HeaderEndAfter(w.page.number, seg, h);
    assert seg[|h|] == '-';
  }

  /** In `" " + n + " ---" + ...`, with no `---` in `n`, the first `---` is
      the header's own. */
  lemma HeaderEndAfter(n: string, seg: string, h: string)
    requires !Contains(n, HeaderEnd)
    requires h == " " + n + " " && |h| + 3 <= |seg| && seg[..|h|] == h && seg[|h|..|h| + 3] == HeaderEnd
    ensures Find(seg, HeaderEnd) == Some(|h|)
  {
    assert OccursAt(seg, HeaderEnd, |h|);
    forall j: nat | j < |h| ensures !OccursAt(seg, HeaderEnd, j) {
      if j + 3 > |h| - 1 {
        assert seg[j + (|h| - 1 - j)] == h[|h| - 1] == ' ';
        MismatchAt(seg, HeaderEnd, j, |h| - 1 - j);
      } else if j == 0 {
        assert seg[0] == h[0] == ' ';
        MismatchAt(seg, HeaderEnd, 0, 0);
      } else {
        assert seg[j..j + 3] == h[j..j + 3] == n[j - 1..j + 2];
        assert !OccursAt(n, HeaderEnd, j - 1);
      }
    }
    FindIsLeftmost(seg, HeaderEnd, |h|);
  }

  /** One space on either side of a stripped text strips off again. */
  lemma StripPadded(n: string)
    requires Strip(n) == n
    ensures Strip(" " + n + " ") == n
  {
    var h := " " + n + " ";
    assert h[1..1 + |n|] == n;
    assert forall k :: 0 <= k < 1 ==> h[k] == ' ';
    assert forall k :: 1 + |n| <= k < |h| ==> h[k] == ' ';
    assert StrippedAt(h, n, 1);
    StripUnique(h, n, 1);
  }

  /** The second part of the one-shot split keeps every later `---`: the
      body holds one exactly when the segment holds at least two. */
  lemma BodyKeepsLaterHeaderEnds(segment: string)
    requires ParsePage(segment).Some?
    ensures Contains(ParsePage(segment).value.body, HeaderEnd) <==> |Split(segment, HeaderEnd)| > 2
  {
    var rest := SplitOnce(segment, HeaderEnd)[1];
    assert ParsePage(segment).value.body == Strip(rest);
    SplitOnceRemainder(segment, HeaderEnd);
    HeaderEndHasNoSpace();
    StripKeepsContains(rest, HeaderEnd);
  }

  /** The header end is made of dashes only, none of them whitespace. */
  lemma HeaderEndHasNoSpace()
    ensures forall k :: 0 <= k < |HeaderEnd| ==> !IsSpace(HeaderEnd[k])
  {
    forall k | 0 <= k < |HeaderEnd| ensures !IsSpace(HeaderEnd[k]) {
      assert HeaderEnd[k] == '-';
    }
  }

  /** The content is the title as a heading and the body as one paragraph
      whose newlines each became `<br>`, all other characters kept. */
  lemma ChapterContent(p: Page)
    ensures MakeChapter(p).content == "<h1>Page " + p.number + "</h1><p>" + BreakLines(p.body) + "</p>"
  {
    ReplaceNewlines(p.body);
  }

  /** The content is a single line exactly when the page number is: the
      body's newlines are all gone. */
  lemma ChapterContentOneLine(p: Page)
    ensures '\n' !in MakeChapter(p).content <==> '\n' !in p.number
  {
    var tail := "</h1><p>" + BreakLines(p.body) + "</p>";
    assert MakeChapter(p).content == "<h1>Page " + (p.number + tail) by {
      ChapterContent(p);
    }
    assert '\n' !in tail by {
      BreakLinesShape(p.body);
      assert '\n' !in "</h1><p>" && '\n' !in "</p>";
    }
    assert '\n' !in "<h1>Page ";
  }

  /** Title and file name wrap the page number and give it back; so two
      chapters share a file name exactly when they share a page number
      (nothing renames duplicates). */
  lemma ChapterNames(p: Page, q: Page)
    ensures MakeChapter(p).title[..5] == "Page " && MakeChapter(p).title[5..] == p.number
    ensures var f := MakeChapter(p).fileName;
      |f| == |p.number| + 11 && f[..5] == "page_" && f[|f| - 6..] == ".xhtml" && f[5..|f| - 6] == p.number
    ensures MakeChapter(p).fileName == MakeChapter(q).fileName <==> p.number == q.number
  {
    var f, g := MakeChapter(p).fileName, MakeChapter(q).fileName;
    assert f[5..|f| - 6] == p.number;
    assert g[5..|g| - 6] == q.number;
  }

  /** The chapter a segment yields, if any. */
  function ChapterOf(segment: string): Option<Chapter> {
    match ParsePage(segment)
    case None => None
    case Some(p) => Some(MakeChapter(p))
  }

  /** The values `f` yields on `xs`, in the order of `xs`: the loop's
      `continue` skips an element, `append` keeps its value. */
  function Keep<S, T>(xs: seq<S>, f: S -> Option<T>): (r: seq<T>)
    decreases |xs|
    ensures |r| <= |xs|
  {
    if xs == [] then []
    else
      var prev := Keep(xs[..|xs| - 1], f);
      match f(xs[|xs| - 1])
      case None => prev
      case Some(y) => prev + [y]
  }

  /** The positions of `xs` at which `f` yields a value, in increasing order. */
  function Kept<S, T>(xs: seq<S>, f: S -> Option<T>): (r: seq<nat>)
    decreases |xs|
    ensures forall k :: 0 <= k < |r| ==> r[k] < |xs| && f(xs[r[k]]).Some?
    ensures forall k, l :: 0 <= k < l < |r| ==> r[k] < r[l]
    ensures forall j :: 0 <= j < |xs| && f(xs[j]).Some? ==> j in r
  {
    if xs == [] then []
    else
      var init := xs[..|xs| - 1];
      var prev := Kept(init, f);
      assert forall k :: 0 <= k < |prev| ==> xs[prev[k]] == init[prev[k]];
      if f(xs[|xs| - 1]).Some? then prev + [|xs| - 1] else prev
  }

  /** Value `k` of `Keep` comes from the `k`-th element at which `f` yields
      one: order is kept and nothing kept is lost or repeated. */
  lemma {:induction false} KeepInOrder<S, T>(xs: seq<S>, f: S -> Option<T>)
    ensures |Keep(xs, f)| == |Kept(xs, f)|
    ensures forall k :: 0 <= k < |Keep(xs, f)| ==> f(xs[Kept(xs, f)[k]]) == Some(Keep(xs, f)[k])
    decreases |xs|
  {
    if xs != [] {
      var init := xs[..|xs| - 1];
      KeepInOrder(init, f);
      forall k | 0 <= k < |Kept(init, f)| ensures xs[Kept(init, f)[k]] == init[Kept(init, f)[k]] { }
    }
  }

  /** The chapters made from the usable segments, in segment order. */
  function ChaptersOf(segments: seq<string>): seq<Chapter> {
    Keep(segments, ChapterOf)
  }

  /** Chapter `k` is made from the `k`-th usable segment (one that is not
      blank and holds a header end): the chapters keep the order of the
      segments they come from, and there are no more chapters than
      segments. */
  lemma ChaptersInSegmentOrder(segments: seq<string>)
    ensures |ChaptersOf(segments)| == |Kept(segments, ChapterOf)| <= |segments|
    ensures forall k :: 0 <= k < |ChaptersOf(segments)| ==>
      var j := Kept(segments, ChapterOf)[k];
      ParsePage(segments[j]).Some? && ChaptersOf(segments)[k] == MakeChapter(ParsePage(segments[j]).value)
    ensures forall j :: 0 <= j < |segments| ==>
      (ParsePage(segments[j]).Some? <==> j in Kept(segments, ChapterOf))
  {
    KeepInOrder(segments, ChapterOf);
  }

  /** The draft splits into one more segment than it has page markers, and
      at most that many chapters come out of it. */
  lemma ChapterCountBound(fullText: string)
    ensures |Split(fullText, PageMarker)| == Count(fullText, PageMarker) + 1
    ensures |ChaptersOf(Split(fullText, PageMarker))| <= Count(fullText, PageMarker) + 1
  {
    SplitCount(fullText, PageMarker);
  }

  /** Dropping an element that yields nothing from the front changes nothing. */
  lemma {:induction false} KeepDropsFirst<S, T>(x: S, xs: seq<S>, f: S -> Option<T>)
    requires f(x).None?
    ensures Keep([x] + xs, f) == Keep(xs, f)
    decreases |xs|
  {
    if xs == [] {
      assert ([x] + xs)[..0] == [];
    } else {
      var init := xs[..|xs| - 1];
      assert ([x] + xs)[..|xs|] == [x] + init;
      assert ([x] + xs)[|xs|] == xs[|xs| - 1];
      KeepDropsFirst(x, init, f);
    }
  }

  /** When every element yields a value, those values are kept, in order. */
  lemma {:induction false} KeepAll<S, T>(xs: seq<S>, f: S -> Option<T>, ys: seq<T>)
    requires |xs| == |ys| && forall k :: 0 <= k < |xs| ==> f(xs[k]) == Some(ys[k])
    ensures Keep(xs, f) == ys
    decreases |xs|
  {
    if xs != [] {
      var n := |xs| - 1;
      KeepAll(xs[..n], f, ys[..n]);
      assert ys == ys[..n] + [ys[n]];
    }
  }

  /** The segments of written pages, one after another. */
  function WrittenSegments(ws: seq<WrittenPage>): seq<string> {
    seq(|ws|, k requires 0 <= k < |ws| => WrittenSegment(ws[k]))
  }

  /** A draft as the page-marking step writes it: the written pages, each
      behind its `--- Page` marker, one after another. */
  function Draft(ws: seq<WrittenPage>): string {
    Join([""] + WrittenSegments(ws), PageMarker)
  }

  /** When no page marker starts inside a written page (not even one that
      runs on into the next header), the split gives back the empty text
      before the first header and then the written pages. */
  lemma DraftSplit(ws: seq<WrittenPage>)
    requires forall k :: 0 <= k < |ws| ==> NoEarlierSeparator(WrittenSegment(ws[k]), PageMarker)
    ensures Split(Draft(ws), PageMarker) == [""] + WrittenSegments(ws)
  {
    var parts := [""] + WrittenSegments(ws);
    if |ws| > 0 {
      assert parts[|parts| - 1] == WrittenSegment(ws[|ws| - 1]);
      NoEarlierExcludes(parts[|parts| - 1], PageMarker);
    } else {
      assert !OccursAt("", PageMarker, 0);
    }
    forall k | 0 <= k < |parts| - 1 ensures NoEarlierSeparator(parts[k], PageMarker) {
      if k > 0 {
        assert parts[k] == WrittenSegment(ws[k - 1]);
      }
    }
    SplitUnique(Draft(ws), PageMarker, parts);
  }

  /** A draft of readable written pages, with no page marker inside a
      page, publishes exactly one chapter per page, made from that page, in
      the order written. */
  lemma DraftRoundTrip(ws: seq<WrittenPage>)
    requires forall k :: 0 <= k < |ws| ==> Readable(ws[k])
    requires forall k :: 0 <= k < |ws| ==> NoEarlierSeparator(WrittenSegment(ws[k]), PageMarker)
    ensures var chapters := ChaptersOf(Split(Draft(ws), PageMarker));
      |chapters| == |ws| && forall k :: 0 <= k < |ws| ==> chapters[k] == MakeChapter(ws[k].page)
  {
    var segs := WrittenSegments(ws);
    var ys := seq(|ws|, k requires 0 <= k < |ws| => MakeChapter(ws[k].page));
    assert Keep(segs, ChapterOf) == ys by {
      forall k | 0 <= k < |segs| ensures ChapterOf(segs[k]) == Some(ys[k]) {
        assert segs[k] == WrittenSegment(ws[k]);
        ChapterOfWritten(ws[k]);
      }
      KeepAll(segs, ChapterOf, ys);
    }
    assert ChapterOf("") == None by {
      assert AllSpace("");
    }
    KeepDropsFirst("", segs, ChapterOf);
    DraftSplit(ws);
  }

  /** A readable written page yields the chapter made from it. */
  lemma ChapterOfWritten(w: WrittenPage)
    requires Readable(w)
    ensures ChapterOf(WrittenSegment(w)) == Some(MakeChapter(w.page))
  {
    ParseWrittenPage(w);
  }

  /** The chapters the spine lists, in reading order. */
  function SpineChapters(spine: seq<SpineEntry>): seq<Chapter>
    decreases |spine|
  {
    if spine == [] then []
    else (if spine[0].ChapterRef? then [spine[0].chapter] else []) + SpineChapters(spine[1..])
  }

  /** The chapter documents among the book's items, in the order added. */
  function ManifestChapters(items: seq<Item>): seq<Chapter>
    decreases |items|
  {
    if items == [] then []
    else (if items[0].HtmlItem? then [items[0].chapter] else []) + ManifestChapters(items[1..])
  }

  lemma {:induction false} SpineChaptersAppend(a: seq<SpineEntry>, b: seq<SpineEntry>)
    ensures SpineChapters(a + b) == SpineChapters(a) + SpineChapters(b)
    decreases |a|
  {
    if a != [] {
      assert (a + b)[1..] == a[1..] + b;
      SpineChaptersAppend(a[1..], b);
    } else {
      assert a + b == b;
    }
  }

  lemma {:induction false} ManifestChaptersAppend(a: seq<Item>, b: seq<Item>)
    ensures ManifestChapters(a + b) == ManifestChapters(a) + ManifestChapters(b)
    decreases |a|
  {
    if a != [] {
      assert (a + b)[1..] == a[1..] + b;
      ManifestChaptersAppend(a[1..], b);
    } else {
      assert a + b == b;
    }
  }

  /** The items `book.add_item(c)` adds for the chapters, one append per
      chapter in order: one item each, and reading the chapter documents
      back out of them gives the chapters, in order. */
  function HtmlItems(chapters: seq<Chapter>): (r: seq<Item>)
    decreases |chapters|
    ensures |r| == |chapters|
    ensures ManifestChapters(r) == chapters
  {
    if chapters == [] then []
    else
      var n := |chapters| - 1;
      var prev := HtmlItems(chapters[..n]);
      ManifestChaptersAppend(prev, [HtmlItem(chapters[n])]);
      assert chapters == chapters[..n] + [chapters[n]];
      prev + [HtmlItem(chapters[n])]
  }

  /** Item `k` is the document of chapter `k`. */
  lemma {:induction false} HtmlItemsAt(chapters: seq<Chapter>)
    ensures forall k :: 0 <= k < |chapters| ==> HtmlItems(chapters)[k] == HtmlItem(chapters[k])
    decreases |chapters|
  {
    if chapters != [] {
      HtmlItemsAt(chapters[..|chapters| - 1]);
    }
  }

  /** One more chapter adds one more item at the end. */
  lemma HtmlItemsSnoc(chapters: seq<Chapter>, c: Chapter)
    ensures HtmlItems(chapters + [c]) == HtmlItems(chapters) + [HtmlItem(c)]
  {
    assert (chapters + [c])[..|chapters|] == chapters;
  }

  /** The chapter part of `['nav'] + chapters`: one entry per chapter, and
      the chapters the entries list are the chapters, in order. */
  function ChapterRefs(chapters: seq<Chapter>): (r: seq<SpineEntry>)
    decreases |chapters|
    ensures |r| == |chapters|
    ensures SpineChapters(r) == chapters
  {
    if chapters == [] then []
    else
      var r := [ChapterRef(chapters[0])] + ChapterRefs(chapters[1..]);
      assert r[1..] == ChapterRefs(chapters[1..]);
      r
  }

  /** What every book `create_epub` builds satisfies: the fixed metadata;
      a spine that opens with the navigation document and then lists the
      table of contents, in order; chapter documents among the items that
      are again the table of contents, in order. */
  ghost predicate Consistent(book: Book) {
    && book.metadata == BookMetadata
    && |book.spine| == |book.toc| + 1
    && book.spine[0] == NavRef
    && SpineChapters(book.spine) == book.toc
    && ManifestChapters(book.items) == book.toc
  }

  /** A book assembled the way `create_epub` assembles it is consistent. */
  lemma AssembledIsConsistent(chapters: seq<Chapter>)
    ensures Consistent(Book(BookMetadata, HtmlItems(chapters) + TrailingItems, chapters,
                            [NavRef] + ChapterRefs(chapters)))
  {
    SpineChaptersAppend([NavRef], ChapterRefs(chapters));
    ManifestChaptersAppend(HtmlItems(chapters), TrailingItems);
    assert TrailingItems[1..][1..][1..] == [];
    assert ManifestChapters(TrailingItems[1..][1..]) == [];
    assert ManifestChapters(TrailingItems) == [];
  }

  /** One more segment adds its chapter, if it yields one, at the end. */
  lemma ChaptersOfStep(segments: seq<string>, i: nat)
    requires i < |segments|
    ensures ChaptersOf(segments[..i + 1]) ==
      match ChapterOf(segments[i])
      case None => ChaptersOf(segments[..i])
      case Some(c) => ChaptersOf(segments[..i]) + [c]
  {
    assert segments[..i + 1][..i] == segments[..i];
  }

  /** The loop of `create_epub`: every segment that yields a chapter has
      it added to the book (`add_item`) and to the chapter list (`append`),
      in segment order. */
  method AddChapters(rawPages: seq<string>) returns (chapters: seq<Chapter>, items: seq<Item>)
    ensures chapters == ChaptersOf(rawPages)
    ensures items == HtmlItems(chapters)
  {
    items := [];
    chapters := [];
    for i := 0 to |rawPages|
      invariant chapters == ChaptersOf(rawPages[..i])
      invariant items == HtmlItems(chapters)
    {
      ChaptersOfStep(rawPages, i);
      var content := rawPages[i];
      if Strip(content) == [] {
        continue;
      }
      var parts := SplitOnce(content, HeaderEnd);
      if |parts| < 2 {
        continue;
      }
      var pageNum := Strip(parts[0]);
      var bodyText := Strip(parts[1]);
      var c := MakeChapter(Page(pageNum, bodyText));
      HtmlItemsSnoc(chapters, c);
      items := items + [HtmlItem(c)];
      chapters := chapters + [c];
    }
    assert rawPages[..|rawPages|] == rawPages;
  }

  /** `create_epub` up to (not including) `write_epub`: the book it builds
      from the draft text. */
  method CreateEpub(fullText: string) returns (book: Book)
    ensures book.metadata == BookMetadata
    ensures book.toc == ChaptersOf(Split(fullText, PageMarker))
    ensures book.items == HtmlItems(book.toc) + TrailingItems
    ensures book.spine == [NavRef] + ChapterRefs(book.toc)
    ensures Consistent(book)
  {
    var metadata := BookMetadata;
    var rawPages := Split(fullText, PageMarker);
    var chapters, items := AddChapters(rawPages);
    var toc := chapters;
    items := items + TrailingItems;
    var spine := [NavRef] + ChapterRefs(chapters);
    book := Book(metadata, items, toc, spine);
    AssembledIsConsistent(chapters);
  }
}
