/** The book that main.py prepares when "Prepare EPUB" is pressed
    (main.py:84-130), as plain records: the metadata it sets, the items it
    adds, the table of contents and the spine. The ebooklib objects become
    the datatypes below; what ebooklib later writes from them is not modelled. */
module Layout {
  import opened Wrappers
  import opened Lines
  import Decimal
  import Html
  import opened Segmentation
  import Chapters

  const IntroFileName: string := "intro.html"
  const IntroTitle: string := "Introduction"
  const StyleUid: string := "style_nav"
  const StyleFileName: string := "style/nav.css"
  const StyleMediaType: string := "text/css"
  const StyleContent: string := "BODY {color: white;}"

  /** An EpubHtml content document. */
  datatype Document = Document(title: string, fileName: string, content: string)

  /** An epub.Link of the table of contents. */
  datatype Link = Link(href: string, title: string)

  /** What add_item receives: a content document, the EpubNav navigation
      document, or the stylesheet EpubItem. */
  datatype Item =
    | HtmlItem(doc: Document)
    | NavItem
    | StyleItem(uid: string, fileName: string, mediaType: string, content: string)

  /** A spine entry: the string 'nav', or a content document. */
  datatype SpineEntry = NavRef | DocRef(doc: Document)

  /** The uploaded cover: its file name and bytes. */
  datatype Cover = Cover(fileName: string, content: seq<bv8>)

  datatype Book = Book(
    title: string,
    authors: seq<string>,
    cover: Option<Cover>,
    items: seq<Item>,
    toc: seq<Link>,
    spine: seq<SpineEntry>)

  /** f'ch_{index}.html' */
  function ChapterFileName(index: nat): string {
    "ch_" + Decimal.NatToString(index) + ".html"
  }

  /** chapters[1:], which is empty for an empty list as in Python. */
  function Later(chapters: seq<ChapterValue>): seq<ChapterValue> {
    if chapters == [] then [] else chapters[1..]
  }

  function IntroDocument(intro: string): Document {
    Document(IntroTitle, IntroFileName, intro)
  }

  /** The document of chapters[1:][index]: its heading, then its html_content. */
  function ChapterDocument(index: nat, chapter: ChapterValue): Document {
    Document(chapter.title, ChapterFileName(index), Html.ChapterContent(chapter.title, chapter.body))
  }

  /** The content documents in reading order (the list `spines` of main.py). */
  function Documents(intro: string, chapters: seq<ChapterValue>): seq<Document> {
    var later := Later(chapters);
    [IntroDocument(intro)] + seq(|later|, i requires 0 <= i < |later| => ChapterDocument(i, later[i]))
  }

  function LinkTo(doc: Document): Link {
    Link(doc.fileName, doc.title)
  }

  /** The book main.py prepares from its form fields and chapters. */
  function BookOf(title: string, author: string, cover: Option<Cover>, intro: string,
                  chapters: seq<ChapterValue>): Book
  {
    var docs := Documents(intro, chapters);
    Book(
      title,
      if author == "" then [] else [author],
      cover,
      seq(|docs|, i requires 0 <= i < |docs| => HtmlItem(docs[i]))
        + [NavItem, StyleItem(StyleUid, StyleFileName, StyleMediaType, StyleContent)],
      seq(|docs|, i requires 0 <= i < |docs| => LinkTo(docs[i])),
      [NavRef] + seq(|docs|, i requires 0 <= i < |docs| => DocRef(docs[i])))
  }

  /** The "Prepare EPUB" handler up to the point where the book is handed to
      the writer. `cover` is None when nothing was uploaded, and `intro` is
      the Introduction field, which starts out as chapters[0].html_content. */
  method PrepareBook(title: string, author: string, cover: Option<Cover>, intro: string,
                     chapters: seq<Chapters.Chapter>) returns (book: Book)
    ensures book == BookOf(title, author, cover, intro, Chapters.Values(chapters))
  {
    ghost var docs := Documents(intro, Chapters.Values(chapters));
    var authors := if author == "" then [] else [author];
    var toc: seq<Link> := [];
    var spines: seq<Document> := [];
    var items: seq<Item> := [];

    var introFile := Document(IntroTitle, IntroFileName, intro);
    items := items + [HtmlItem(introFile)];
    toc := toc + [Link(IntroFileName, IntroTitle)];
    spines := spines + [introFile];

    var later := if |chapters| == 0 then [] else chapters[1..];
    DocumentCount(intro, chapters);
    for index := 0 to |later|
      invariant |spines| == |toc| == |items| == index + 1
      invariant forall i :: 0 <= i < |spines| ==> spines[i] == docs[i]
      invariant forall i :: 0 <= i < |spines| ==> toc[i] == LinkTo(spines[i])
      invariant forall i :: 0 <= i < |spines| ==> items[i] == HtmlItem(spines[i])
    {
      var chapter := later[index];
      var fileName := ChapterFileName(index);
      var chFile := Document(chapter.title, fileName, Html.Heading(chapter.title) + chapter.HtmlContent());
      DocumentOfChapter(intro, chapters, index);
      items := items + [HtmlItem(chFile)];
      toc := toc + [Link(fileName, chapter.title)];
      spines := spines + [chFile];
    }
    items := items + [NavItem, StyleItem(StyleUid, StyleFileName, StyleMediaType, StyleContent)];
    var spine := [NavRef] + seq(|spines|, i requires 0 <= i < |spines| => DocRef(spines[i]));
    book := Book(title, authors, cover, items, toc, spine);
  }

  /** There is one document per chapter object after the first, plus the introduction. */
  lemma DocumentCount(intro: string, chapters: seq<Chapters.Chapter>)
    ensures |Documents(intro, Chapters.Values(chapters))| == (if |chapters| == 0 then 1 else |chapters|)
  {
  }

  /** The document the handler builds from chapters[1:][index]. */
  lemma DocumentOfChapter(intro: string, chapters: seq<Chapters.Chapter>, index: nat)
    requires index + 1 < |chapters|
    ensures var chapter := chapters[index + 1];
      Documents(intro, Chapters.Values(chapters))[index + 1] ==
        Document(chapter.title, ChapterFileName(index), Html.Heading(chapter.title) + chapter.HtmlContent())
  {
    var values := Chapters.Values(chapters);
    assert Later(values)[index] == values[index + 1] == chapters[index + 1].Value();
  }

  /** What the book holds, for k = |chapters[1:]| chapters after the Head:
      k + 1 documents with the introduction first, a table of contents that
      links to them in the spine's order, a spine of 'nav' and then the
      documents, and the navigation document and stylesheet after them. */
  lemma BookOutline(title: string, author: string, cover: Option<Cover>, intro: string,
                    chapters: seq<ChapterValue>)
    ensures var book, k := BookOf(title, author, cover, intro, chapters), |Later(chapters)|;
      && book.title == title
      && (author == "" ==> book.authors == []) && (author != "" ==> book.authors == [author])
      && book.cover == cover
      && |book.toc| == k + 1 && |book.spine| == k + 2 && |book.items| == k + 3
      && book.toc[0] == Link(IntroFileName, IntroTitle)
      && book.spine[0] == NavRef
      && (forall i :: 0 <= i < |book.toc| ==>
            && book.spine[i + 1].DocRef?
            && book.toc[i] == LinkTo(book.spine[i + 1].doc)
            && book.items[i] == HtmlItem(book.spine[i + 1].doc))
      && book.items[k + 1] == NavItem
      && book.items[k + 2] == StyleItem(StyleUid, StyleFileName, StyleMediaType, StyleContent)
  {
  }

  /** Chapter file names never collide: ch_<i> for distinct i differ. */
  lemma ChapterFileNameInjective(i: nat, j: nat)
    ensures ChapterFileName(i) == ChapterFileName(j) <==> i == j
  {
    var a, b := Decimal.NatToString(i), Decimal.NatToString(j);
    if ChapterFileName(i) == ChapterFileName(j) {
      assert |a| == |b|;
      assert a == ChapterFileName(i)[3..3 + |a|];
      assert b == ChapterFileName(j)[3..3 + |b|];
      Decimal.NatToStringInjective(i, j);
    }
  }

  /** The documents' file names: intro.html, then ch_0.html, ch_1.html, ...
      with no two alike. */
  lemma DocumentFileNames(intro: string, chapters: seq<ChapterValue>)
    ensures var docs := Documents(intro, chapters);
      && |docs| == |Later(chapters)| + 1
      && docs[0].fileName == IntroFileName
      && (forall i :: 0 <= i < |Later(chapters)| ==> docs[i + 1].fileName == ChapterFileName(i))
      && (forall i, j :: 0 <= i < j < |docs| ==> docs[i].fileName != docs[j].fileName)
  {
    var docs := Documents(intro, chapters);
    forall i, j | 0 <= i < j < |docs| ensures docs[i].fileName != docs[j].fileName {
      if i == 0 {
        assert docs[j].fileName[0] == 'c';
      } else {
        ChapterFileNameInjective(i - 1, j - 1);
      }
    }
  }

  /** Each chapter document carries its chapter's title and starts with it
      as a heading; when no line break occurs in the chapter, its content
      reads back to exactly that title and body. */
  lemma ChapterDocuments(intro: string, chapters: seq<ChapterValue>)
    ensures var docs, later := Documents(intro, chapters), Later(chapters);
      forall i :: 0 <= i < |later| ==>
        && docs[i + 1].title == later[i].title
        && Html.Heading(later[i].title) <= docs[i + 1].content
        && (NoLineBreak(later[i].title) && AllWithoutLineBreak(later[i].body) ==>
              Html.ParseChapterContent(docs[i + 1].content) == Some((later[i].title, later[i].body)))
  {
    var docs, later := Documents(intro, chapters), Later(chapters);
    forall i | 0 <= i < |later|
      ensures Html.Heading(later[i].title) <= docs[i + 1].content
      ensures NoLineBreak(later[i].title) && AllWithoutLineBreak(later[i].body) ==>
                Html.ParseChapterContent(docs[i + 1].content) == Some((later[i].title, later[i].body))
    {
      var c := later[i];
      assert docs[i + 1].content == Html.Heading(c.title) + Html.Paragraphs(c.body);
      if NoLineBreak(c.title) && AllWithoutLineBreak(c.body) {
        Html.ParseChapterContentOf(c.title, c.body);
      }
    }
  }

  /** Reads documents back into chapters, in order, with `decode` reading
      one document's content. */
  function DecodeEach(docs: seq<Document>, decode: string -> Option<(string, seq<string>)>): (r: Option<seq<ChapterValue>>)
    ensures r.Some? ==> |r.value| == |docs|
    decreases |docs|
  {
    if docs == [] then Some([])
    else
      match DecodeEach(docs[..|docs| - 1], decode)
      case None => None
      case Some(chapters) =>
        match decode(docs[|docs| - 1].content)
        case None => None
        case Some((title, body)) => Some(chapters + [ChapterValue(title, body)])
  }

  /** Reads chapter documents back into chapters. */
  function DecodeChapters(docs: seq<Document>): Option<seq<ChapterValue>> {
    DecodeEach(docs, Html.ParseChapterContent)
  }

  /** Reads a book's documents back into the lines of the text: the
      introduction as the Head chapter, then every chapter document. */
  function RecoverText(docs: seq<Document>): Option<seq<string>>
    requires |docs| > 0
  {
    match Html.ParseParagraphs(docs[0].content)
    case None => None
    case Some(head) =>
      match DecodeChapters(docs[1..])
      case None => None
      case Some(chapters) => Some(Flatten([ChapterValue(HeadTitle, head)] + chapters))
  }

  predicate BreakFree(chapter: ChapterValue) {
    NoLineBreak(chapter.title) && AllWithoutLineBreak(chapter.body)
  }

  /** A decoder that only accepts what renders back to its input passes
      that on to every chapter it reads. */
  lemma {:induction false} DecodeEachSound(docs: seq<Document>, decode: string -> Option<(string, seq<string>)>)
    requires forall s :: decode(s).Some? ==> Html.ChapterContent(decode(s).value.0, decode(s).value.1) == s
    ensures var r := DecodeEach(docs, decode);
      r.Some? ==> forall i :: 0 <= i < |docs| ==>
        Html.ChapterContent(r.value[i].title, r.value[i].body) == docs[i].content
    decreases |docs|
  {
    var r := DecodeEach(docs, decode);
    if docs != [] && r.Some? {
      var n := |docs| - 1;
      DecodeEachSound(docs[..n], decode);
      var front := DecodeEach(docs[..n], decode).value;
      var parsed := decode(docs[n].content);
      assert r.value == front + [ChapterValue(parsed.value.0, parsed.value.1)];
      forall i | 0 <= i < |docs|
        ensures Html.ChapterContent(r.value[i].title, r.value[i].body) == docs[i].content
      {
        if i < n {
          assert r.value[i] == front[i] && docs[i] == docs[..n][i];
        }
      }
    }
  }

  /** Decoded chapters render back to the chapter documents' contents. */
  lemma DecodeChaptersSound(docs: seq<Document>)
    ensures var r := DecodeChapters(docs);
      r.Some? ==> |r.value| == |docs| && forall i :: 0 <= i < |docs| ==>
        Html.ChapterContent(r.value[i].title, r.value[i].body) == docs[i].content
  {
    forall s ensures var p := Html.ParseChapterContent(s); p.Some? ==> Html.ChapterContent(p.value.0, p.value.1) == s {
      Html.ParseChapterContentSound(s);
    }
    DecodeEachSound(docs, Html.ParseChapterContent);
  }

  /** Documents that each read back to a chapter read back together to the list. */
  lemma {:induction false} DecodeEachOf(chapters: seq<ChapterValue>, docs: seq<Document>,
                                        decode: string -> Option<(string, seq<string>)>)
    requires |docs| == |chapters|
    requires forall i :: 0 <= i < |docs| ==> decode(docs[i].content) == Some((chapters[i].title, chapters[i].body))
    ensures DecodeEach(docs, decode) == Some(chapters)
    decreases |docs|
  {
    if docs != [] {
      var n := |docs| - 1;
      var front := chapters[..n];
      forall i | 0 <= i < n ensures decode(docs[..n][i].content) == Some((front[i].title, front[i].body)) {
        assert front[i] == chapters[i] && docs[..n][i] == docs[i];
      }
      DecodeEachOf(front, docs[..n], decode);
      assert front + [chapters[n]] == chapters;
    }
  }

  /** Chapter documents of chapters without line breaks decode back to those chapters. */
  lemma DecodeChaptersOf(chapters: seq<ChapterValue>, docs: seq<Document>)
    requires |docs| == |chapters|
    requires forall i :: 0 <= i < |docs| ==> BreakFree(chapters[i])
    requires forall i :: 0 <= i < |docs| ==>
               docs[i].content == Html.ChapterContent(chapters[i].title, chapters[i].body)
    ensures DecodeChapters(docs) == Some(chapters)
  {
    forall i | 0 <= i < |docs|
      ensures Html.ParseChapterContent(docs[i].content) == Some((chapters[i].title, chapters[i].body))
    {
      var c := chapters[i];
      assert NoLineBreak(c.title) && AllWithoutLineBreak(c.body) by { assert BreakFree(chapters[i]); }
      Html.ParseChapterContentOf(c.title, c.body);
    }
    DecodeEachOf(chapters, docs, Html.ParseChapterContent);
  }

  /** Reading back the documents of a book whose introduction reads back to `head`. */
  lemma RecoverDocuments(intro: string, head: seq<string>, chapters: seq<ChapterValue>)
    requires Html.ParseParagraphs(intro) == Some(head)
    requires forall i :: 0 <= i < |Later(chapters)| ==> BreakFree(Later(chapters)[i])
    ensures RecoverText(Documents(intro, chapters)) ==
              Some(Flatten([ChapterValue(HeadTitle, head)] + Later(chapters)))
  {
    var docs, later := Documents(intro, chapters), Later(chapters);
    var rest := docs[1..];
    assert docs[0].content == intro;
    forall i | 0 <= i < |later|
      ensures rest[i].content == Html.ChapterContent(later[i].title, later[i].body)
    {
      assert rest[i] == ChapterDocument(i, later[i]);
    }
    DecodeChaptersOf(later, rest);
  }

  /** With the Introduction field left at its initial value, the head's
      html_content, the book holds the whole text file: reading its
      documents back and joining the lines with '\n' gives the file's text. */
  lemma BookKeepsText(content: string, isTitle: string -> bool)
    ensures var chapters := Split(SplitLines(content), isTitle);
      var docs := Documents(Html.Paragraphs(chapters[0].body), chapters);
      && RecoverText(docs) == Some(SplitLines(content))
      && JoinLines(RecoverText(docs).value) == content
  {
    var lines := SplitLines(content);
    var chapters := Split(lines, isTitle);
    var head, later := chapters[0].body, Later(chapters);
    SplitKeepsLineProperty(lines, isTitle, NoLineBreak);
    assert AllWithoutLineBreak(head) by {
      forall j | 0 <= j < |head| ensures NoLineBreak(head[j]) {
        assert NoLineBreak(chapters[0].body[j]);
      }
    }
    forall i | 0 <= i < |later| ensures BreakFree(later[i]) {
      assert later[i] == chapters[i + 1];
      forall j | 0 <= j < |later[i].body| ensures NoLineBreak(later[i].body[j]) {
        assert NoLineBreak(chapters[i + 1].body[j]);
      }
    }
    Html.ParseParagraphsOf(head);
    RecoverDocuments(Html.Paragraphs(head), head, chapters);
    assert [ChapterValue(HeadTitle, head)] + later == chapters;
    SplitFlatten(lines, isTitle);
    JoinSplitLines(content);
  }
}
