/** `extract_text` of `modules/parser.py`: dispatch on the file name's
    suffix, the title and author heuristics of each format, and their
    defaults. Decoding is not modelled: what each reader would produce (the
    decoded TXT text, the PDF's page texts and metadata, the EPUB's items
    and Dublin Core fields) is given, and `lower` is Python's `str.lower`. */
module Parser {
  import opened Wrappers
  import opened Strings
  import opened Sorting

  const DefaultTitle: string := "Неизвестно"
  const DefaultAuthor: string := "Неизвестен"
  const Unsupported: string := "Unsupported format"

  /** Lines scanned for a TXT header. */
  const HeaderLines: nat := 10

  /** The item type of an EPUB document (`ebooklib.ITEM_DOCUMENT`). */
  const DocumentItem: int := 9

  /** A PDF: the text of each page and the metadata dictionary (a missing
      key stands for `None`). */
  datatype PdfDoc = PdfDoc(pages: seq<string>, metadata: map<string, string>)

  /** An EPUB item: its type and the text BeautifulSoup extracts from it. */
  datatype EpubItem = EpubItem(kind: int, text: string)

  /** An EPUB: its items and the values of its DC `title` and `creator`
      fields. */
  datatype EpubBook = EpubBook(items: seq<EpubItem>, titles: seq<string>, creators: seq<string>)

  /** What each reader makes of the uploaded file. */
  datatype Upload = Upload(decoded: string, pdf: PdfDoc, epub: EpubBook)

  /** `(text, title, author)`. */
  type Extracted = (string, string, string)

  /** The texts of the document items, in order. */
  function DocumentTexts(items: seq<EpubItem>): (ts: seq<string>)
    ensures |ts| <= |items|
    ensures forall t :: t in ts ==> exists i :: 0 <= i < |items| && items[i].kind == DocumentItem && items[i].text == t
  {
    if items == [] then []
    else
      var rest := DocumentTexts(items[1..]);
      assert forall i :: 0 <= i < |items[1..]| ==> items[1..][i] == items[i + 1];
      if items[0].kind == DocumentItem then [items[0].text] + rest else rest
  }

  predicate MentionsAuthor(lower: string -> string, line: string) {
    Contains(lower(line), "автор")
  }

  predicate MentionsTitle(lower: string -> string, line: string) {
    Contains(lower(line), "название") || Contains(lower(line), "title")
  }

  function AuthorLine(lower: string -> string): string -> bool {
    line => MentionsAuthor(lower, line)
  }

  function TitleLine(lower: string -> string): string -> bool {
    line => MentionsTitle(lower, line)
  }

  /** The TXT header loop over `lines`, starting from `(title, author)`:
      each line mentioning the author sets the author, and independently
      each line mentioning the title sets the title, to the stripped line. */
  function Scan(lower: string -> string, lines: seq<string>, title: string, author: string): (string, string) {
    if lines == [] then (title, author)
    else
      var line := lines[0];
      var author' := if MentionsAuthor(lower, line) then Strip(line) else author;
      var title' := if MentionsTitle(lower, line) then Strip(line) else title;
      Scan(lower, lines[1..], title', author')
  }

  /** The index of the last line satisfying `p`. */
  function LastMatch(lines: seq<string>, p: string -> bool): (r: Option<nat>)
    ensures r.Some? ==> r.value < |lines| && p(lines[r.value])
                        && forall j | r.value < j < |lines| :: !p(lines[j])
    ensures r.None? ==> forall j | 0 <= j < |lines| :: !p(lines[j])
  {
    if lines == [] then None
    else if p(lines[|lines| - 1]) then Some(|lines| - 1)
    else
      var r := LastMatch(lines[..|lines| - 1], p);
      assert forall j | 0 <= j < |lines| - 1 :: lines[..|lines| - 1][j] == lines[j];
      r
  }

  /** The stripped last line satisfying `p`, or `default` when none does. */
  function Pick(lines: seq<string>, p: string -> bool, default: string): string {
    match LastMatch(lines, p)
    case None => default
    case Some(i) => Strip(lines[i])
  }

  /** The last match of `lines` in terms of that of its tail. */
  lemma LastMatchTail(lines: seq<string>, p: string -> bool)
    requires lines != []
    ensures var r' := LastMatch(lines[1..], p);
            LastMatch(lines, p) == if r'.Some? then Some(r'.value + 1) else if p(lines[0]) then Some(0) else None
  {
    var tail := lines[1..];
    var r := LastMatch(lines, p);
    var r' := LastMatch(tail, p);
    if r'.Some? {
      assert tail[r'.value] == lines[r'.value + 1];
      forall j | r'.value + 1 < j < |lines| ensures !p(lines[j]) {
        assert lines[j] == tail[j - 1];
      }
    } else {
      forall j | 1 <= j < |lines| ensures !p(lines[j]) {
        assert lines[j] == tail[j - 1];
      }
    }
  }

  /** Dropping the first line, which becomes the fallback when it matches. */
  lemma PickTail(lines: seq<string>, p: string -> bool, default: string)
    requires lines != []
    ensures Pick(lines, p, default) == Pick(lines[1..], p, if p(lines[0]) then Strip(lines[0]) else default)
  {
    LastMatchTail(lines, p);
    var r' := LastMatch(lines[1..], p);
    if r'.Some? {
      assert lines[1..][r'.value] == lines[r'.value + 1];
    }
  }

  /** The header loop keeps the stripped last matching line of each kind,
      or the starting value when no line matches. */
  lemma {:induction false} ScanLast(lower: string -> string, lines: seq<string>, title: string, author: string)
    ensures Scan(lower, lines, title, author)
         == (Pick(lines, TitleLine(lower), title), Pick(lines, AuthorLine(lower), author))
    decreases |lines|
  {
    if lines != [] {
      var line := lines[0];
      var author' := if MentionsAuthor(lower, line) then Strip(line) else author;
      var title' := if MentionsTitle(lower, line) then Strip(line) else title;
      ScanLast(lower, lines[1..], title', author');
      PickTail(lines, TitleLine(lower), title);
      PickTail(lines, AuthorLine(lower), author);
    }
  }

  /** `meta.get(key) or default`. */
  function MetaOr(meta: map<string, string>, key: string, default: string): (v: string)
    ensures key in meta && meta[key] != [] ==> v == meta[key]
    ensures !(key in meta && meta[key] != []) ==> v == default
  {
    if key in meta && meta[key] != [] then meta[key] else default
  }

  /** `values[0][0] if values else default`. */
  function FirstOr(values: seq<string>, default: string): (v: string)
    ensures values == [] ==> v == default
    ensures values != [] ==> v == values[0]
  {
    if values != [] then values[0] else default
  }

  /** `extract_text(file, filename)`. */
  function ExtractText(lower: string -> string, filename: string, up: Upload): (r: Extracted)
    ensures !EndsWith(filename, ".txt") && !EndsWith(filename, ".pdf") && !EndsWith(filename, ".epub")
            ==> r == (Unsupported, "", "")
    ensures EndsWith(filename, ".txt") ==>
              var header := Take(SplitLines(up.decoded), HeaderLines);
              r == (up.decoded, Pick(header, TitleLine(lower), DefaultTitle), Pick(header, AuthorLine(lower), DefaultAuthor))
    ensures !EndsWith(filename, ".txt") && EndsWith(filename, ".pdf") ==>
              && r.0 == JoinWith("", up.pdf.pages)
              && var meta := up.pdf.metadata;
                 && r.1 == (if "title" in meta && meta["title"] != [] then meta["title"] else DefaultTitle)
                 && r.2 == (if "author" in meta && meta["author"] != [] then meta["author"] else DefaultAuthor)
    ensures !EndsWith(filename, ".txt") && !EndsWith(filename, ".pdf") && EndsWith(filename, ".epub") ==>
              && r.0 == JoinWith("", DocumentTexts(up.epub.items))
              && r.1 == (if up.epub.titles == [] then DefaultTitle else up.epub.titles[0])
              && r.2 == (if up.epub.creators == [] then DefaultAuthor else up.epub.creators[0])
  {
    if EndsWith(filename, ".txt") then
      var text := up.decoded;
      var header := Take(SplitLines(text), HeaderLines);
      ScanLast(lower, header, DefaultTitle, DefaultAuthor);
      var (title, author) := Scan(lower, header, DefaultTitle, DefaultAuthor);
      (text, title, author)
    else if EndsWith(filename, ".pdf") then
      var meta := up.pdf.metadata;
      (JoinWith("", up.pdf.pages), MetaOr(meta, "title", DefaultTitle), MetaOr(meta, "author", DefaultAuthor))
    else if EndsWith(filename, ".epub") then
      var book := up.epub;
      (JoinWith("", DocumentTexts(book.items)), FirstOr(book.titles, DefaultTitle), FirstOr(book.creators, DefaultAuthor))
    else
      (Unsupported, "", "")
  }
}
