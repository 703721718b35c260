/** The note file main.ts:33-91 writes for one clippings page: the
    sanitised book metadata, the frontmatter, the document, its path in the
    vault and the message shown once the write has been attempted. */
module Importer {
  import opened Wrappers
  import opened Strings
  import opened Sanitize
  import opened Dom
  import opened Highlights

  /** Title, author and publisher as main.ts:37-39 reads them. */
  datatype Metadata = Metadata(title: string, author: string, publisher: string)

  /** The text of every element of each class, trimmed, with the characters
      a file name cannot hold removed; a class the page lacks gives "". */
  function ReadMetadata(doc: seq<Elem>): (m: Metadata)
    ensures Safe(m.title) && Safe(m.author) && Safe(m.publisher)
    ensures (forall i :: 0 <= i < |doc| ==> !HasClass(doc[i], BookTitle)) ==> m.title == ""
    ensures (forall i :: 0 <= i < |doc| ==> !HasClass(doc[i], Authors)) ==> m.author == ""
    ensures (forall i :: 0 <= i < |doc| ==> !HasClass(doc[i], Publisher)) ==> m.publisher == ""
  {
    NoneWithClass(doc, BookTitle);
    NoneWithClass(doc, Authors);
    NoneWithClass(doc, Publisher);
    Metadata(Sanitized(TextOfClass(doc, BookTitle)),
             Sanitized(TextOfClass(doc, Authors)),
             Sanitized(TextOfClass(doc, Publisher)))
  }

  /** The import day (UTC), passed in instead of read from the clock. */
  datatype Date = Date(year: nat, month: nat, day: nat)

  /** A calendar day with a four-digit year, the range in which the ISO
      form has the plain `YYYY-MM-DD` shape. */
  predicate ValidDate(d: Date) {
    d.year <= 9999 && 1 <= d.month <= 12 && 1 <= d.day <= 31
  }

  /** The date part of the ISO timestamp, as main.ts:76 cuts it out. */
  function IsoDate(d: Date): (r: string)
    requires ValidDate(d)
    ensures |r| == 10 && r[4] == '-' && r[7] == '-'
    ensures AllDigits(r[..4]) && DecimalValue(r[..4]) == d.year
    ensures AllDigits(r[5..7]) && DecimalValue(r[5..7]) == d.month
    ensures AllDigits(r[8..]) && DecimalValue(r[8..]) == d.day
  {
    assert Pow10(2) == 100 && Pow10(4) == 10000;
    DecimalWidth(d.year, 4);
    DecimalWidth(d.month, 2);
    DecimalWidth(d.day, 2);
    var y, m, dd := PadDecimal(d.year, 4), PadDecimal(d.month, 2), PadDecimal(d.day, 2);
    var r := y + "-" + m + "-" + dd;
    assert r[..4] == y && r[5..7] == m && r[8..] == dd;
    r
  }

  /** A frontmatter value: a quoted string, a bare word, or a list. */
  datatype Value = Quoted(text: string) | Plain(text: string) | Items(items: seq<string>)

  datatype Entry = Entry(key: string, value: Value)

  /** The frontmatter fields main.ts:66-77 writes, in its order. */
  function Entries(m: Metadata, count: nat, date: string): seq<Entry> {
    [ Entry("título", Quoted(m.title)),
      Entry("autor", Quoted(m.author)),
      Entry("editorial", Quoted(m.publisher)),
      Entry("resaltados", Plain(Decimal(count))),
      Entry("origen", Plain("Kindle")),
      Entry("tags", Items(["Kindle", UnderscoreWs(m.author), UnderscoreWs(m.title)])),
      Entry("fechaImportación", Quoted(date)) ]
  }

  function Keys(es: seq<Entry>): (ks: seq<string>)
    ensures |ks| == |es| && forall j :: 0 <= j < |es| ==> ks[j] == es[j].key
  {
    if es == [] then [] else Keys(es[..|es| - 1]) + [es[|es| - 1].key]
  }

  /** The keys come in a fixed order whatever the book; the count reads
      back as the number written; no tag holds whitespace; and a quoted
      metadata value cannot close its own quotes early. */
  lemma EntriesShape(m: Metadata, count: nat, date: string)
    requires Safe(m.title) && Safe(m.author) && Safe(m.publisher)
    ensures var es := Entries(m, count, date);
      && Keys(es) == ["título", "autor", "editorial", "resaltados", "origen", "tags", "fechaImportación"]
      && es[3].value.Plain? && AllDigits(es[3].value.text) && DecimalValue(es[3].value.text) == count
      && es[5].value.Items? && |es[5].value.items| == 3 && es[5].value.items[0] == "Kindle"
      && (forall t :: t in es[5].value.items ==> NoWs(t))
      && (forall j :: 0 <= j < 3 ==> es[j].value.Quoted? && '"' !in es[j].value.text)
  {
    var es := Entries(m, count, date);
    DecimalRoundTrip(count);
    assert Keys(es) == Keys(es[..6]) + ["fechaImportación"];
    assert Keys(es[..6]) == Keys(es[..5]) + ["tags"];
    assert Keys(es[..5]) == Keys(es[..4]) + ["origen"];
    assert Keys(es[..4]) == Keys(es[..3]) + ["resaltados"];
    assert Keys(es[..3]) == Keys(es[..2]) + ["editorial"];
    assert Keys(es[..2]) == Keys(es[..1]) + ["autor"];
    assert Keys(es[..1]) == Keys([]) + ["título"];
  }

  /** One value as it follows its key. */
  function ValueText(v: Value): string {
    match v
    case Quoted(t) => " \"" + t + "\""
    case Plain(t) => " " + t
    case Items(ts) => ItemsText(ts)
  }

  function ItemsText(ts: seq<string>): string {
    if ts == [] then "" else ItemsText(ts[..|ts| - 1]) + "\n  - " + ts[|ts| - 1]
  }

  /** One field as a line: key, colon, value. */
  function EntryLine(e: Entry): string {
    e.key + ":" + ValueText(e.value) + "\n"
  }

  /** The frontmatter block: a rule, the fields one per line, a rule. */
  function Frontmatter(m: Metadata, count: nat, date: string): string {
    var es := Entries(m, count, date);
    Concat(["---\n"] + seq(|es|, j requires 0 <= j < |es| => EntryLine(es[j])) + ["---\n"])
  }

  /** The fields rendered one per line are the text of the template at
      main.ts:66-77, character for character: a rule, the template's lines,
      a rule. */
  lemma FrontmatterIsTemplate(m: Metadata, count: nat, date: string)
    ensures Frontmatter(m, count, date) == Concat(["---\n"] + TemplateLines(m, count, date) + ["---\n"])
  {
    EntryLines(m, count, date);
  }

  /** The template's lines between the two rules. */
  function TemplateLines(m: Metadata, count: nat, date: string): seq<string> {
    [ "título: \"" + m.title + "\"\n",
      "autor: \"" + m.author + "\"\n",
      "editorial: \"" + m.publisher + "\"\n",
      "resaltados: " + Decimal(count) + "\n",
      "origen: Kindle\n",
      "tags:\n" + "  - Kindle\n" + "  - " + UnderscoreWs(m.author) + "\n"
        + "  - " + UnderscoreWs(m.title) + "\n",
      "fechaImportación: \"" + date + "\"\n" ]
  }

  /** Each field renders as its line of the template. */
  lemma EntryLines(m: Metadata, count: nat, date: string)
    ensures var es := Entries(m, count, date);
      seq(|es|, j requires 0 <= j < |es| => EntryLine(es[j])) == TemplateLines(m, count, date)
  {
    var es, t := Entries(m, count, date), TemplateLines(m, count, date);
    var body := seq(|es|, j requires 0 <= j < |es| => EntryLine(es[j]));
    QuotedLines(m, date);
    PlainLines(count);
    TagsLine(UnderscoreWs(m.author), UnderscoreWs(m.title));
    assert body[0] == t[0] && body[1] == t[1] && body[2] == t[2] && body[3] == t[3];
    assert body[4] == t[4] && body[5] == t[5] && body[6] == t[6];
    assert |body| == |t| == 7;
  }

  lemma QuotedLines(m: Metadata, date: string)
    ensures EntryLine(Entry("título", Quoted(m.title))) == "título: \"" + m.title + "\"\n"
    ensures EntryLine(Entry("autor", Quoted(m.author))) == "autor: \"" + m.author + "\"\n"
    ensures EntryLine(Entry("editorial", Quoted(m.publisher))) == "editorial: \"" + m.publisher + "\"\n"
    ensures EntryLine(Entry("fechaImportación", Quoted(date))) == "fechaImportación: \"" + date + "\"\n"
  {
  }

  lemma PlainLines(count: nat)
    ensures EntryLine(Entry("resaltados", Plain(Decimal(count)))) == "resaltados: " + Decimal(count) + "\n"
    ensures EntryLine(Entry("origen", Plain("Kindle"))) == "origen: Kindle\n"
  {
  }

  /** The tags field is the line `tags:` and one indented item per line. */
  lemma TagsLine(ua: string, ut: string)
    ensures EntryLine(Entry("tags", Items(["Kindle", ua, ut])))
         == "tags:\n" + "  - Kindle\n" + "  - " + ua + "\n" + "  - " + ut + "\n"
  {
    var tags := ["Kindle", ua, ut];
    assert tags[..1][..0] == [];
    assert tags[..2][..1] == tags[..1];
    assert tags[..3][..2] == tags[..2];
    assert ItemsText(tags[..1]) == "\n  - Kindle";
    assert ItemsText(tags[..2]) == ItemsText(tags[..1]) + "\n  - " + ua;
    assert ItemsText(tags[..3]) == ItemsText(tags[..2]) + "\n  - " + ut;
    assert tags[..3] == tags;
  }

  /** The heading between the frontmatter and the highlights, with its
      trailing space (main.ts:82). */
  const HighlightsHeading: string := "\n\n## Highlights \n\n"

  /** The note as main.ts:82 writes it. */
  function Document(frontmatter: string, content: string): string {
    frontmatter + HighlightsHeading + content
  }

  /** A document splits back into its frontmatter, the heading and the
      highlights. */
  lemma DocumentParts(frontmatter: string, content: string)
    ensures var d, k := Document(frontmatter, content), |frontmatter|;
      && |d| == k + 18 + |content|
      && d[..k] == frontmatter
      && d[k..k + 18] == "\n\n## Highlights \n\n"
      && d[k + 18..] == content
  {
    var d := Document(frontmatter, content);
    assert d == frontmatter + (HighlightsHeading + content);
  }

  /** The vault path main.ts:81 writes to. */
  function TargetPath(folder: string, title: string): string {
    folder + "/" + title + ".md"
  }

  /** Since a sanitised title holds no `/`, the path is the folder, one
      separator and a single file name ending in `.md`. */
  lemma TargetPathParts(folder: string, title: string)
    requires Safe(title)
    ensures var p := TargetPath(folder, title);
      && p[..|folder|] == folder && p[|folder|] == '/'
      && p[|folder| + 1..] == title + ".md"
      && (forall k :: |folder| < k < |p| ==> p[k] != '/')
      && p[|p| - 3..] == ".md"
  {
    var p := TargetPath(folder, title);
    assert p == folder + ("/" + (title + ".md"));
    forall k | |folder| < k < |p| ensures p[k] != '/' {
      if k < |folder| + 1 + |title| {
        assert p[k] == title[k - |folder| - 1];
        assert !IsUnsafe(title[k - |folder| - 1]);
      }
    }
  }

  /** With the default folder setting "/" the path starts with two
      slashes. */
  lemma DefaultFolderPath(title: string)
    ensures TargetPath("/", title) == "//" + title + ".md"
  {
  }

  /** How the write of main.ts:79-82 ended. */
  datatype WriteOutcome = Written | Failed(code: string)

  const CreatedNotice: string := "Archivo creado correctamente"
  const InvalidPathNotice: string := "Ruta inválida. Selecciona una carpeta válida en la configuración del plugin"
  const ExistsNotice: string := "El archivo ya existe"

  /** The message main.ts:83-90 shows: success, a missing folder, or
      (for any other failure) an existing file. */
  function NoticeFor(o: WriteOutcome): (msg: string)
    ensures msg == CreatedNotice <==> o.Written?
    ensures msg == InvalidPathNotice <==> o == Failed("ENOENT")
    ensures msg == ExistsNotice <==> o.Failed? && o.code != "ENOENT"
  {
    match o
    case Written => CreatedNotice
    case Failed(code) => if code == "ENOENT" then InvalidPathNotice else ExistsNotice
  }

  /** The file one import writes, and how many highlights it holds. */
  datatype Imported = Imported(path: string, document: string, count: nat)

  /** What one import of a parsed page produces. */
  function Import(doc: seq<Elem>, folder: string, date: Date): Imported
    requires ValidDate(date)
  {
    var m := ReadMetadata(doc);
    Imported(TargetPath(folder, m.title),
             Document(Frontmatter(m, Count(doc), IsoDate(date)), Content(doc)),
             Count(doc))
  }

  /** The import as a whole: the note goes under the folder with the
      sanitised title as its file name, it opens with the frontmatter whose
      count is the number of accepted headings, and the highlights close
      it. */
  lemma ImportShape(doc: seq<Elem>, folder: string, date: Date)
    requires ValidDate(date)
    ensures var r, m := Import(doc, folder, date), ReadMetadata(doc);
      var fm := Frontmatter(m, r.count, IsoDate(date));
      && r.count == |set i: nat | i < |doc| && HasClass(doc[i], NoteHeading)
                                            && doc[i].spanChildren == 1|
      && r.path[|folder| + 1..] == m.title + ".md"
      && (forall k :: |folder| < k < |r.path| ==> r.path[k] != '/')
      && r.document[..|fm|] == fm
      && r.document[|fm| + 18..] == Content(doc)
  {
    var m := ReadMetadata(doc);
    CountIsAcceptedHeadings(doc);
    TargetPathParts(folder, m.title);
    DocumentParts(Frontmatter(m, Count(doc), IsoDate(date)), Content(doc));
  }

  /** The handler main.ts:33-91: nothing happens for a missing or empty
      file; otherwise the metadata is read, the highlight pass runs, and
      the note is assembled and its creation requested (`vault.create`),
      the notice reporting how that write went. */
  method HandleFileLoad(fileContents: Option<string>, doc: array<Elem>, folder: string,
                        date: Date, outcome: WriteOutcome)
    returns (request: Option<Imported>, notice: Option<string>)
    requires ValidDate(date)
    ensures request.None? <==> fileContents.None? || fileContents.value == ""
    ensures request.Some? ==> request.value == Import(doc[..], folder, date)
    ensures notice == if request.None? then None else Some(NoticeFor(outcome))
  {
    if fileContents.None? || fileContents.value == "" {
      return None, None;
    }
    var m := ReadMetadata(doc[..]);
    var content, counter := ExtractHighlights(doc);
    var frontmatter := Frontmatter(m, counter, IsoDate(date));
    request := Some(Imported(TargetPath(folder, m.title), Document(frontmatter, content), counter));
    notice := Some(NoticeFor(outcome));
  }
}
