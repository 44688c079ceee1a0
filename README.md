# Novel TXT-EPUB builder: chapter segmentation and book layout in Dafny

This project models the core of `main.py` of the epub_toolbox repository. That
page turns a plain-text novel into an EPUB book in four steps:

1. It splits the decoded text at line breaks.
2. `split_content` cuts the lines into chapters. A line that matches the title
   regex opens a new chapter. Any other line goes into the body of the last
   chapter. Everything before the first title goes into a synthetic Head
   chapter.
3. `Chapter.html_content` renders a chapter body as one `<p>` element per line.
4. The "Prepare EPUB" handler lays the book out. It adds an introduction
   document, then one `ch_<i>.html` document per chapter after the Head. The
   table of contents gets one link per document, and the spine is `nav`
   followed by the documents.

Modules, one per file:

- `segmentation.dfy` (`Segmentation`): `Split` is what `split_content`
  computes, written as a left fold over the lines. It takes the title test as
  a parameter `isTitle: string -> bool`, because `reg.match` stands for any
  match anchored at the start of a line. The lemmas state the Head chapter's title and
  body, the chapter count and titles, the partition round trip, that no body
  line is a title, and that these properties determine `Split`.
- `chapters.dfy` (`Chapters`): the `Chapter` class, with `title` and
  `contentLines` fields. Also `SplitContent`, the imperative loop of
  `split_content`. The loop appends new chapter objects and extends the last
  chapter's `contentLines` in place. It is proved to produce distinct objects
  whose values are `Split(lines)`.
- `html.dfy` (`Html`): the paragraph and heading renderers, and decoders for
  them. The decoders show that nothing is lost when no line holds a line break.
- `lines.dfy` (`Lines`): `str.split('\n')` and `'\n'.join`, with both round
  trips.
- `decimal.dfy` (`Decimal`): the decimal text of the chapter index in
  `ch_{index}.html`. It is proved injective.
- `layout.dfy` (`Layout`): the book as plain records. It holds the title, the
  authors, the cover, the items in `add_item` order, the table of contents and
  the spine. `PrepareBook` is the handler's loop. `BookOf` is the declarative
  book, and lemmas cover it: its outline, distinct file names, chapter
  documents that start with their heading and decode back to their chapter,
  and a proof that, when the Introduction field is left at its initial value,
  the documents together hold the whole text file.
- `default_pattern.dfy` (`DefaultPattern`): the regex `第.*章.*` that the page
  suggests, under `re.match`, written out as one predicate. It comes with the
  three-chapter example.
- `wrappers.dfy` (`Wrappers`): `Option`.

Details of main.py that the model keeps:

- The Head chapter is titled `Head (Content before first title)` (main.py:39).
- `intro.html` is always added, even for an empty introduction
  (main.py:96-102).
- main.py has one title regex and no block list. The allow/block classifier
  in `pages/1 📘 Novel TXT-EPUB Builder.py` is not modelled.

## Model

| member | source | states |
|---|---|---|
| `Segmentation.Split` | main.py:36-47 | There is always at least one chapter, and the first is titled `Head (Content before first title)`. |
| `Segmentation.Step` | main.py:41-45 | One line of the loop never removes a chapter, and the first chapter keeps its title. |
| `Segmentation.SplitWellFormed` | main.py:39-45 | The Head comes first. Every later chapter's title is a title line. No body line of any chapter is a title line. |
| `Segmentation.SplitFlatten` | main.py:40-45 | Partition round trip: the Head body, then each later chapter's title followed by its body, concatenated, is the input. |
| `Segmentation.SplitTitles` | main.py:41-42 | The chapter count is 1 plus the number of title lines. The later chapters' titles are exactly the title lines, in source order, duplicates kept. |
| `Segmentation.SplitHead` | main.py:39-45 | The Head body is the longest prefix of the input without a title line. It is all the lines when none matches, and empty when the first line matches. |
| `Segmentation.SplitTitleFree` | main.py:40-45 | Input without a title line yields a single Head chapter holding every line. The empty input yields one empty Head. |
| `Segmentation.SplitAppendBody` | main.py:45 | Appending non-title lines extends only the last chapter's body. |
| `Segmentation.SplitAppendChapter` | main.py:41-45 | A title line followed by non-title lines adds exactly one chapter with that title and those lines. |
| `Segmentation.SplitKeepsLineProperty` | main.py:40-45 | Chapter titles and body lines are input lines, taken verbatim: whatever holds of every input line holds of them. |
| `Segmentation.SplitUnique` | main.py:36-47 | A well-formed chapter list that flattens to the input is the result of the segmentation. |
| `Segmentation.SplitCharacterized` | main.py:36-47 | A chapter list is the segmentation of the input exactly when it is well formed and flattens to the input. |
| `Chapters.Chapter.constructor` | main.py:25-27 | A new chapter has the given title and no content lines. |
| `Chapters.AddLine` | main.py:41-45 | One pass of the loop: the objects afterwards hold `Step` of the values before, stay pairwise distinct, and are the old objects or new ones. |
| `Chapters.SplitContent` | main.py:35-47 | The loop returns newly allocated, pairwise distinct chapter objects whose titles and content lines are those of `Split`. |
| `Html.Paragraphs` | main.py:29-32 | `html_content` is the empty string exactly when the body is empty. |
| `Html.ParagraphsAppend` | main.py:30-32 | Rendering the concatenation of two bodies gives the concatenation of their renderings. |
| `Html.ParseElement` | main.py:32 | The reader for one `<p>…</p>\n` or `<h1>…</h1>\n` element: it returns the text and the rest, and the rest is shorter than the input. Its soundness and round trip are `ParseElementSound` and `ParseElementOf`. |
| `Html.ParseElementSound` | main.py:32 | Reading one element succeeds only on text that is the opening tag, the text, the closing tag and the rest. |
| `Html.ParseElementOf` | main.py:32 | An element around a line without line breaks reads back to that line and the rest. |
| `Html.ParseParagraphsSound` | main.py:30-32 | Reading paragraphs succeeds only on text that renders back from the lines it returns. |
| `Html.ParseParagraphsOf` | main.py:30-32 | A body without line breaks reads back from its `html_content`. |
| `Html.ParseChapterContentSound` | main.py:108-109 | Reading a chapter document succeeds only on text that is the heading of the returned title and the paragraphs of the returned lines. |
| `Html.ParseChapterContentOf` | main.py:108-109 | A title and body without line breaks read back from the chapter document's content. |
| `Lines.SplitLines` | main.py:57 | `content.split('\n')` gives at least one line, and no line contains a line break. |
| `Lines.JoinSplitLines` | main.py:57 | Joining the split lines with `'\n'` gives the text back. |
| `Lines.SplitJoinLines` | main.py:57 | Splitting a join of lines without line breaks gives those lines back. |
| `Decimal.NatToString` | main.py:105 | The index text is non-empty, all decimal digits, and has no leading zero. |
| `Decimal.DigitsValueOfNatToString` | main.py:105 | Reading the index text as a decimal number gives the index back. |
| `Decimal.NatToStringInjective` | main.py:105 | Distinct indices have distinct texts. |
| `Layout.PrepareBook` | main.py:84-130 | The handler's loop builds exactly `BookOf`: the title, the author only when one is given, the cover only when one is uploaded, the items, the table of contents and the spine. |
| `Layout.BookOutline` | main.py:93-130 | With k chapters after the Head, the TOC has k + 1 links with the introduction first, and it mirrors the document list entry for entry. The spine is `nav` then the documents, k + 2 entries. The navigation document and the stylesheet are added after the documents. |
| `Layout.ChapterFileNameInjective` | main.py:104-105 | `ch_<i>.html` and `ch_<j>.html` are equal exactly when i = j. |
| `Layout.DocumentFileNames` | main.py:96-114 | The documents are named `intro.html`, then `ch_0.html` to `ch_<k-1>.html`, and no two names are equal. |
| `Layout.ChapterDocuments` | main.py:104-112 | Each chapter document has its chapter's title, and its content starts with `<h1>title</h1>\n`. Without line breaks in the chapter, the content decodes back to that title and body. |
| `Layout.DecodeEach` | main.py:104-109 | Reading documents back gives one chapter per document. |
| `Layout.DecodeChaptersSound` | main.py:104-109 | Decoded chapters render back to the chapter documents' contents, one per document. |
| `Layout.DecodeEachOf` | main.py:104-109 | Documents that each read back to a chapter read back together to the list of those chapters, in order. |
| `Layout.DecodeChaptersOf` | main.py:104-109 | Chapter documents of chapters without line breaks decode back to those chapters. |
| `Layout.RecoverDocuments` | main.py:96-114 | When the introduction reads back to some lines and no chapter after the Head holds a line break, the documents read back to those lines followed by every later chapter's title and body. |
| `Layout.BookKeepsText` | main.py:57-114 | When the Introduction field keeps its initial value (the Head's `html_content`), decoding the introduction and chapter documents gives back exactly the file's lines. Joining them with `'\n'` gives the file's text. |
| `DefaultPattern.MarkBeforeLineBreakIff` | main.py:64 | The scan accepts exactly the strings where some 章 comes before the first line break, which is the part `.*章` of the default pattern. |
| `DefaultPattern.ScenarioTitles` | main.py:64 | The default pattern takes `第一章 start` and `第二章 end` for titles, and `foo`, `bar` and `baz` for body lines. |
| `DefaultPattern.ThreeChapters` | main.py:36-47 | Body, title, body, title, body lines give the Head and two chapters, under any title test. |
| `DefaultPattern.ScenarioThreeChapters` | main.py:36-47 | Under the default pattern, `foo, 第一章 start, bar, 第二章 end, baz` gives three chapters: the Head with `foo`, `第一章 start` with `bar`, and `第二章 end` with `baz`. |

## Left out

- `convert_encoding` (main.py:17-21): reading the upload and detecting its encoding with chardet are I/O and a foreign library. The model starts from the decoded text.
- The Streamlit UI: uploaders, tabs, the chapter dataframe, text inputs, the button and the download (main.py:51-82, 147-148). The form fields become parameters of `Layout.PrepareBook`.
- `st.cache_data` caching of `split_content` and `convert_encoding`: it is a performance measure of the host framework, and the model's functions are deterministic anyway.
- The regex engine: `re.compile` and `reg.match` become the `isTitle` parameter. An invalid regex raises `re.error` in the source, and the model does not capture that case. Only the default pattern is written out, in `DefaultPattern`.
- ebooklib's own behaviour: what `set_cover`, `EpubNav`, `EpubWriter.process` and `_write_container`, `_write_opf` and `_write_items` produce from the book (main.py:87-88, 116, 132-143). These are foreign calls. The model stops at the plain records handed to them.
- The zip archive and its stored-first `mimetype` entry (main.py:135-145): byte I/O through the standard library.
- HTML escaping: the source inserts titles and lines into the HTML unescaped, and so does the model. The decoders therefore only promise a round trip for lines without line breaks, which is every line `split('\n')` produces.
- `util.py`, `app_entry.py`, `README.py` and the pages under `pages/`: these are an HTTP fetch, Streamlit bootstrap and display, and variant pages. They are not part of this model.
