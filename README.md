# Scan2eBook publisher, modelled in Dafny

`publisher.py` turns the draft text of a scanned book into an EPUB. The
scanner writes each page into the draft behind a header `--- Page <n> ---`.
`create_epub` does the following:

- It splits the draft on the marker `--- Page`.
- It skips blank segments.
- It cuts each remaining segment once at the first `---`. Segments without
  one are skipped.
- The stripped text before that cut is the page number. The stripped text
  after it is the body.
- Each page becomes an XHTML chapter with the title `Page <n>`, the file
  `page_<n>.xhtml`, the language `en` and the content
  `<h1>Page <n></h1><p><body></p>`. Every newline in the body becomes `<br>`.
- It adds each chapter to the book, in order, and makes the chapters the
  table of contents.
- It adds the NCX document, the navigation document and a fixed
  stylesheet (`style_nav`, `style/nav.css`, `text/css`).
- The spine (reading order) is the navigation document and then the
  chapters.
- The book carries fixed metadata: identifier `id123456`, title
  `My Scanned Project`, language `en`, author `Scan2Ebook User`.

The project has two modules:

- `text.dfy` (module `Text`) models the Python string operations the
  publisher uses, each defined the way CPython behaves for a non-empty
  separator: `str.find`, `str.split(sep)`, `str.split(sep, 1)`,
  `sep.join`, `str.count`, `str.strip()` and `str.replace`.
  - `Split` is built on the leftmost `Find`.
  - `Count` is an independent scan.
  - `Replace` is split-then-join, as CPython's result is, and it is proved
    equal to a character-wise reference `BreakLines` for the newline
    replacement the publisher makes.
  - `Strip` removes the characters for which `str.isspace` holds, using a
    fixed table.
- `publisher.dfy` (module `Publisher`) holds the book, the chapters and the
  items as datatypes.
  - `ParsePage` and `MakeChapter` are the loop body.
  - `ChaptersOf` is the whole loop, written as a filter that keeps order.
  - `CreateEpub` is `create_epub` itself. Its loop is the method
    `AddChapters`: a `for` loop with the `continue`s and the appends, proved
    against `ChaptersOf`. `CreateEpub` is proved against the invariant
    `Consistent`.
  - `DraftRoundTrip` shows that a draft written with page headers, with
    any whitespace after each header and after each body, publishes
    exactly one chapter per page, in order.

Three consequences of the code as written are kept in the model:

- A segment before the first marker that is not blank and holds a `---`
  becomes a chapter: nothing special-cases the first segment.
- Later `---` in a page stay in its body.
- Two pages with the same number get the same file name.

## Model

| member | source | states |
|---|---|---|
| Text.Find | publisher.py:28 | the index found holds the separator and none occurs before it; `None` means no occurrence anywhere |
| Text.FindNone | publisher.py:28 | `find` fails exactly when the separator is not in the text |
| Text.Join | publisher.py:28 | `sep.join(parts)`; see `SplitJoin` and `SplitUnique`, which tie it to the split |
| Text.Split | publisher.py:28 | `str.split` returns at least one piece |
| Text.SplitJoin | publisher.py:28 | joining the pieces with the separator gives the text back |
| Text.Count | publisher.py:28 | `str.count` counts non-overlapping occurrences, so they fit into the text: count times separator length is at most the length |
| Text.SplitCount | publisher.py:28 | the number of pieces is the number of (non-overlapping) occurrences plus one |
| Text.SplitPieces | publisher.py:28 | no piece holds the separator, and no separator runs from a piece into the next one |
| Text.SplitUnique | publisher.py:28 | any pieces that join back to the text and have those two properties are the split |
| Text.SplitOnce | publisher.py:39-40 | one part when the separator is absent (the text itself); otherwise two parts around the leftmost separator, the first free of it |
| Text.SplitOnceOfSplit | publisher.py:39 | the one-shot split is the first piece of the full split and the rest joined back |
| Text.SplitOnceRemainder | publisher.py:39 | the second part holds a separator exactly when the full split has more than two pieces |
| Text.Strip | publisher.py:34 | empty exactly for all-whitespace text; otherwise no whitespace at the ends; the result is a piece of the text with only whitespace around it |
| Text.StripUnique | publisher.py:42-43 | those properties determine the result of `strip` |
| Text.StripIdempotent | publisher.py:42-43 | stripping twice is stripping once |
| Text.StripBetweenSpace | publisher.py:43 | whitespace on either side of stripped text strips off again |
| Text.StripKeepsAbsence | publisher.py:42 | stripping cannot create an occurrence of a separator |
| Text.StripKeepsContains | publisher.py:43 | a separator without whitespace is in the stripped text exactly when it is in the text |
| Text.Replace | publisher.py:53 | `str.replace` for a non-empty pattern; see `ReplaceNewlines` |
| Text.ReplaceNewlines | publisher.py:53 | `replace("\n", "<br>")` equals the character-wise rewrite of each newline to `<br>` |
| Text.BreakLinesShape | publisher.py:53 | no newline is left; the length grows by three for each newline |
| Publisher.ParsePage | publisher.py:34-43 | the loop body up to the chapter: the skips of lines 34 and 40 and the stripped number and body; see `ParsePageSpec` |
| Publisher.ParsePageSpec | publisher.py:33-43 | a segment gives a page exactly when it is not blank and holds `---`; the number and body are the stripped text before and after the leftmost `---`; the number holds no `---` |
| Publisher.BodyKeepsLaterHeaderEnds | publisher.py:39-43 | the body holds `---` exactly when the segment holds at least two |
| Publisher.ParseWrittenPage | publisher.py:37-43 | a header ` <n> ---`, whitespace, a body and whitespace read back as the same page when number and body have no whitespace at their ends and the number has no `---` |
| Publisher.MakeChapter | publisher.py:46-54 | the chapter of one page; see `ChapterNames`, `ChapterContent` and `ChapterContentOneLine` |
| Publisher.ChapterNames | publisher.py:46-47 | the title is `Page ` plus the number and the file name is `page_` plus the number plus `.xhtml`; two file names agree exactly when the numbers do |
| Publisher.ChapterContent | publisher.py:49-54 | the content is the `<h1>` title and then the body in `<p>`, with every newline of the body turned into `<br>` |
| Publisher.ChapterContentOneLine | publisher.py:53-54 | the content holds no newline exactly when the page number holds none |
| Publisher.ChapterOf | publisher.py:33-57 | the chapter one segment yields, if any; see `ChaptersInSegmentOrder` and `ChapterOfWritten` |
| Publisher.ChaptersOf | publisher.py:30-57 | the chapters the loop collects; see `ChaptersInSegmentOrder`, `ChapterCountBound` and `DraftRoundTrip` |
| Publisher.Keep | publisher.py:30-57 | the loop keeps at most one chapter per segment |
| Publisher.Kept | publisher.py:33-40 | the positions kept are increasing, in range, and are exactly the segments that yield a chapter |
| Publisher.KeepInOrder | publisher.py:33-57 | chapter `k` comes from the `k`-th usable segment |
| Publisher.ChaptersInSegmentOrder | publisher.py:33-57 | chapters keep the order of their segments, each is the chapter of its segment's page, and a segment is used exactly when it gives a page |
| Publisher.ChapterCountBound | publisher.py:28-57 | the draft splits into one more segment than it has markers, and no more chapters than that come out |
| Publisher.DraftSplit | publisher.py:28 | a draft of written pages with no marker inside a page splits into the empty text and then those pages |
| Publisher.ChapterOfWritten | publisher.py:33-57 | a readable written page yields the chapter made from its page |
| Publisher.DraftRoundTrip | publisher.py:28-57 | such a draft of readable written pages, each with its own whitespace after the header and after the body, gives one chapter per page, made from that page, in the order written |
| Publisher.HtmlItems | publisher.py:56-57 | one item appended per chapter, and the chapter documents read back from the items are the chapters, in order |
| Publisher.HtmlItemsAt | publisher.py:56 | item `k` is the document of chapter `k` |
| Publisher.ChapterRefs | publisher.py:70 | one spine entry per chapter, and the chapters read back from the entries are the chapters, in order |
| Publisher.AssembledIsConsistent | publisher.py:16-70 | the assembled book has the fixed metadata; its spine is the navigation document and then the table of contents; its chapter items are the table of contents |
| Publisher.ChaptersOfStep | publisher.py:33-57 | one more segment adds its chapter at the end if it yields one, and nothing otherwise |
| Publisher.AddChapters | publisher.py:33-57 | the loop collects exactly `ChaptersOf` the segments, and adds one item per chapter, in order |
| Publisher.CreateEpub | publisher.py:9-70 | the book's metadata is fixed; its table of contents is the chapters of the draft's segments; its items are those chapters and then NCX, navigation and stylesheet; its spine is `nav` and then the chapters; and it is consistent |

## Left out

- Reading the draft file and the three paths set up at lines 5-7 and 22-23 are left out. `CreateEpub` takes the draft text as a parameter.
- The two `print` calls at lines 10 and 74 are messages only and are left out.
- `epub.write_epub` (line 73) is not modelled. Neither is anything it does with the book: the ZIP container, the OPF, the NCX and navigation documents it generates, and the HTML it serialises.
- ebooklib is not part of this model. Whatever `book.add_item` records beyond the item itself (item ids, for instance) is left out, so an item here is just the object added.
- `EpubNcx()` and `EpubNav()` are kept as opaque items (`NcxItem`, `NavItem`); the defaults they carry are left out.
- `Text.Strip`: uses a fixed table of the characters for which Python's `str.isspace` holds: the ASCII controls 9-13 and 28-31, the space, and U+0085, U+00A0, U+1680, U+2000-U+200A, U+2028, U+2029, U+202F, U+205F and U+3000. It is not derived from the Unicode database.
- `Text.Split`: requires a non-empty separator. Python raises `ValueError` for an empty one; the publisher only splits on `--- Page` and `---`, so that error cannot arise here.
- `Text.Replace`: requires a non-empty pattern, because the publisher only replaces `"\n"`. Python's empty-pattern replace, which inserts the replacement between characters, is not modelled.
- Page numbers and bodies are not HTML-escaped, and duplicate page numbers are not renamed. The model keeps both as written; `ChapterNames` states the file-name clash.
- `Publisher.DraftRoundTrip`: covers drafts in which no page marker occurs inside a page and every page number is free of `---`. Other drafts are still described by `ChaptersInSegmentOrder`.
- `server.py` and `frontend/src/App.jsx` are not part of this model. They are the upload server, job handling and user interface around the publisher.
- Python's `str` methods are modelled on `seq<char>`. Nothing here depends on how characters are encoded.
