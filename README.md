# Kindle highlights importer — a Dafny model

This project models the import step of the Obsidian "Kindle highlights"
plugin: `KindleHighlightsPlugin.handleFileLoad` in `main.ts`, which turns a
"Kindle Notes & Highlights" HTML export into one Markdown note. Given the
parsed page, the destination folder and the import date, the handler:

1. reads the book title, author and publisher, trims each one, and removes
   the characters a file name may not hold (`\ / * < > : | ? "`);
2. walks the `.noteHeading` elements in document order. A heading that does
   not have exactly one `span` child is skipped. For every other heading it
   appends a block to the body: the trimmed text of the next sibling when
   that sibling is a `.noteText`, then the line `- {Page|Location} {n}` taken
   from the first match of `(Page|Location) (\d+)` in the heading, then an
   optional `>[!note] ` callout, then a `---` rule. It also counts the
   heading;
3. builds the frontmatter (`título`, `autor`, `editorial`, `resaltados`,
   `origen`, `tags`, `fechaImportación`), joins it to the body under
   `## Highlights `, and writes `{folder}/{title}.md`;
4. shows one of three notices, depending on how the write ended.

Modules:

- `Strings` (strings.dfy): the ECMAScript whitespace set shared by `trim()`
  and `\s`, `trim()` itself, and decimal numerals.
- `Sanitize` (sanitize.dfy): removal of unsafe characters, and the
  whitespace-to-underscore rewrite used for tags.
- `Location` (location.dfy): the regular expression `(Page|Location) (\d+)`
  as a leftmost, greedy match.
- `Dom` (dom.dfy): the parsed page, seen as one sequence of sibling elements.
  Each element has its class names, its number of `span` children and its
  text. The module also holds the few selections the handler makes.
- `Highlights` (highlights.dfy): the highlight pass. `ExtractHighlights` is a
  loop over an `array` of elements. `VisitHeading` is the `.each` callback.
  Both are proved against a pure renderer (`Content`, `Count`) of the
  processed prefix.
- `Importer` (importer.dfy): the metadata, the ISO date, the frontmatter, the
  document, the path, the notice, and `HandleFileLoad`.

The model follows these details of `main.ts`:

- Metadata is trimmed first and stripped second. So the result can end in
  whitespace that the strip uncovered (`Sanitize.SanitizedNotIdempotent`).
- `$(".bookTitle").text()` joins the texts of *every* element with that
  class, not just one element's text.
- The callout is written whenever the element two places on exists, has no
  span and is not a `.sectionHeading`. This holds even when no `.noteText`
  follows it; the callout is then `>[!] `.
- The body text comes only from the *immediate* next sibling, and only when
  that sibling is a `.noteText`.
- A heading without a location renders `-  ` (a dash and two spaces). The
  callout line and the `## Highlights ` heading both end with a space.

## Model

| member | source | states |
|---|---|---|
| Strings.Trim | main.ts:37-39 | The result neither starts nor ends with whitespace, and it is no longer than the input |
| Strings.TrimSplits | main.ts:37-39 | The input is some whitespace, then its trimmed value, then some whitespace |
| Strings.TrimOfPadded | main.ts:37-39 | Trimming whitespace + x + whitespace, where x has no whitespace at its ends, gives back exactly x. With `TrimSplits`, this fully describes `trim()` |
| Strings.TrimIdempotent | main.ts:49 | Trimming twice is the same as trimming once |
| Strings.Decimal | main.ts:70 | A count renders as a non-empty run of ASCII digits with no leading zero |
| Strings.DecimalRoundTrip | main.ts:70 | Reading the rendered count back as a decimal numeral gives the count |
| Strings.DecimalWidth | main.ts:76 | A number below 10^k takes at most k digits |
| Strings.PadDecimal | main.ts:76 | The zero-padded numeral is all digits, is exactly `max(width, digits)` long, and reads back as the number |
| Sanitize.StripUnsafeSpec | main.ts:37-39 | No unsafe character is left; a string without unsafe characters comes back unchanged |
| Sanitize.StripUnsafeConcat | main.ts:37-39 | The strip works one character at a time: it distributes over concatenation |
| Sanitize.StripUnsafeIdempotent | main.ts:37-39 | Stripping a stripped string changes nothing |
| Sanitize.Sanitized | main.ts:37-39 | Title, author and publisher hold no unsafe character; a safe value is only trimmed |
| Sanitize.SanitizedNotIdempotent | main.ts:37-39 | Trim-then-strip is not idempotent. A word, then blanks, then `"` sanitises to the word and the blanks; sanitising that again drops the blanks |
| Sanitize.UnderscoreWs | main.ts:74-75 | No whitespace is left in a tag, and the tag is no longer than the input |
| Sanitize.UnderscoreWsNoWs | main.ts:74-75 | A value without whitespace is left as it is |
| Sanitize.UnderscoreWsIdempotent | main.ts:74-75 | Applying the replacement twice gives the same result as once |
| Sanitize.UnderscoreWsRun | main.ts:74-75 | A whole run of whitespace becomes exactly one `_` |
| Sanitize.UnderscoreWsConcat | main.ts:74-75 | The replacement distributes over any split that does not cut a whitespace run. With `UnderscoreWsRun`, every maximal run becomes one `_` and nothing else changes |
| Location.FindFrom | main.ts:47 | The scan returns the first index from `i` on where the pattern matches, or none if it matches nowhere there |
| Location.DigitRun | main.ts:47 | `\d+` takes the longest run of ASCII digits |
| Location.GroupsAtMatched | main.ts:47-48 | At a matching index, the captured label and number are well-formed and are exactly the text the pattern consumes |
| Location.MatchLocation | main.ts:47-48 | The result is none exactly when the pattern matches nowhere. Otherwise the label is `Page` or `Location` and the number is a non-empty digit run, read at the leftmost match and not followed by another digit |
| Location.MatchLocationUnique | main.ts:47-48 | Any well-formed match read at the leftmost matching index is what `MatchLocation` returns, so the reference description and the scan agree |
| Location.NoMatchWithoutLabel | main.ts:47 | The pattern cannot match at an index that holds neither `P` nor `L` |
| Location.ExampleHeadingMatch | main.ts:47-48 | The heading `34) Highlight (yellow) - Page 12` yields `Page` and `12` |
| Dom.TextIfClass | main.ts:49 | `.next(".noteText").text()` is non-empty only when the sibling exists and has the class |
| Dom.NoneWithClass | main.ts:37-39 | A class the page lacks gives "" |
| Dom.TextOfClassConcat | main.ts:37-39 | The selection's text is read element by element, in document order |
| Dom.TextOfClassSingle | main.ts:37-39 | When exactly one element carries the class, the text is that element's text |
| Highlights.HighlightAtSpec | main.ts:45-59 | The body text is the trimmed text of the next sibling if it is a `.noteText`, otherwise "". There is a note exactly when the element at i+2 exists, has no span and is not a section heading. The note is the trimmed text at i+3 if that is a `.noteText`, otherwise "". The label is empty exactly when the heading has no match, and both groups are then empty |
| Highlights.RenderShape | main.ts:51-62 | Every block ends with the `---` rule. `>[!` follows the location line exactly when the highlight has a note |
| Highlights.UnmatchedLocationLine | main.ts:51 | A highlight without a location renders the location line as `-  ` (a dash and two spaces) |
| Highlights.RenderWithoutNote | main.ts:51-62 | A block without a note is the text, the location line and the rule, with nothing between them |
| Highlights.ConcatBlocksSnoc | main.ts:44-62 | The body of highlights `hs + [h]` is the body of `hs` followed by the block `Render(h)`: one block per highlight, in the same order |
| Highlights.AcceptedIndices | main.ts:44-45 | The listed headings are strictly increasing. They are exactly the indices of note headings that have one span child |
| Highlights.ExtractedAtAccepted | main.ts:44-63 | The highlights of the first n elements are exactly those read at the accepted headings among them, in order |
| Highlights.HighlightsFollowHeadings | main.ts:44-63 | The j-th highlight is read from the j-th accepted heading. There are exactly as many highlights as accepted headings |
| Highlights.Count | main.ts:63 | The counter equals the number of accepted headings |
| Highlights.CountIsAcceptedHeadings | main.ts:44-63 | `resaltados` is the size of the set of note headings with exactly one span child |
| Highlights.ContentFollowsHeadings | main.ts:44-62 | The body is the blocks of the accepted headings, one per heading, in document order. Other elements contribute nothing |
| Highlights.CalloutSourceNotAccepted | main.ts:45-57 | The element whose shape triggers a callout has no span child, so it is never a highlight itself |
| Highlights.ContentStep | main.ts:44-63 | One more element adds its block and one to the count when it is an accepted heading. Otherwise it adds nothing |
| Highlights.VisitHeading | main.ts:44-63 | The callback appends exactly the heading's block and counts it when the shape check passes. Otherwise it returns early with nothing changed |
| Highlights.ExtractHighlights | main.ts:41-64 | After the loop, `content` is the rendered body of the whole page and `highlightsCounter` is the number of accepted headings |
| Highlights.SingleHighlight | main.ts:44-63 | A page with one heading and its text yields exactly `text\n- label number\n\n---\n\n` and a count of 1 |
| Importer.ReadMetadata | main.ts:37-39 | Title, author and publisher hold no unsafe character. A class the page lacks yields "" |
| Importer.IsoDate | main.ts:76 | The date is `YYYY-MM-DD`: 10 characters, dashes at 4 and 7, and digit fields that read back as year, month and day |
| Importer.EntriesShape | main.ts:66-77 | The keys come in the fixed order `título, autor, editorial, resaltados, origen, tags, fechaImportación`. The count reads back as the number of highlights. The tags are `Kindle` and two values without whitespace. No quoted metadata value holds a `"` |
| Importer.FrontmatterIsTemplate | main.ts:66-77 | The frontmatter built from the fields is the template's text, line by line, between two `---` rules |
| Importer.DocumentParts | main.ts:82 | The document splits back into the frontmatter, `\n\n## Highlights \n\n` and the body |
| Importer.TargetPathParts | main.ts:81 | The path is the folder, one `/`, and a single file name (no further `/`) that ends in `.md` |
| Importer.DefaultFolderPath | main.ts:81 | With the default folder `/`, the path begins with `//` |
| Importer.NoticeFor | main.ts:84-90 | Success gives "Archivo creado correctamente". `ENOENT` gives the invalid-path notice, and any other failure gives "El archivo ya existe". Each message comes from exactly one case |
| Importer.ImportShape | main.ts:37-82 | The count is the number of accepted headings. The file name is the sanitised title plus `.md`. The document opens with the frontmatter and closes with the body |
| Importer.HandleFileLoad | main.ts:33-91 | A missing or empty file produces nothing. Otherwise the note requested from `vault.create` is `Import` of the page, and the notice matches how that write ended |

## Left out

- HTML parsing (`cheerio.load`) is not modelled. The page is given as one flat sequence of elements, each with its classes, its `span` count and its text. This assumes every element the handler looks at, the metadata elements included, is a child of one parent, so `.next()` is the following entry of the sequence. Pages whose headings or texts are nested in other elements are outside the model. `.text()` of an element is taken as given.
- Reading the file (`FileReader`) is not modelled. `fileContents` is an optional string, and the `ArrayBuffer` case (always truthy) is not modelled.
- Plugin lifecycle, commands, settings load/save, the file-picker modal and the settings tab are not modelled. They are host plumbing and UI.
- `vault.create` is not modelled, since it is an asynchronous write to the host. Its outcome is a parameter (`Written` or `Failed(code)`), and only the notice's text is modelled, not its display.
- `new Date()` is not modelled, since it reads the clock. The UTC day is a parameter.
- Importer.IsoDate: years above 9999, which `toISOString` writes with a sign and six digits, are excluded by the precondition. Day numbers are not checked against the length of the month.
- Characters are Unicode scalar values, whereas JavaScript strings are UTF-16 code units. Every whitespace character is in the Basic Multilingual Plane, so trimming and `\s` agree on both views. Lone surrogates cannot be represented.
- Exceptions thrown by the parser or by the host are not modelled.
