# prinsessa-og-epstein — a Dafny model of the search and extraction cores

The repository publishes the e-mail correspondence between the Norwegian
Crown Princess and Jeffrey Epstein. Three parts of it are plain text
processing, and this project models and proves properties of each of them:

- **Server-side retrieval** (`app/api/search/route.ts`). This is the search
  endpoint's knowledge base reader `parseCSV`. It is a line-based scanner that
  flips a flag at each quote and splits on commas outside quotes. It is
  followed by the sender and date filter chain. An absent or short query gets a
  chronological answer. Any other query gets a lexical score and is ranked by
  a stable sort in non-increasing score order, keeping at most 30 results.
- **Client-side search** (`app/page.tsx`):
  - `cleanMessageContent` deletes XML property-list blocks and scanner
    metadata runs, then normalises whitespace;
  - `displayContent` falls back to that clean-up;
  - the page keeps a three-field state (query, results, hasSearched), which
    `handleSearch`, `clear` and typing in the search box change.
- **E-mail extraction** (`scripts/pdf_to_csv.py`):
  - `clean_text` repairs the extracted text;
  - `parse_first_email` scans lines to read the first From/To/Sent/Subject
    and the content that follows, stopping at reply and disclaimer markers;
  - content is truncated at the disclaimer;
  - the e-mails are ordered newest Sent first.

Files and modules:

| file | module | what |
|---|---|---|
| `seqs.dfy` | `Seqs` | `Option`, `Filter` (order-preserving selection), `Take`, small sequence lemmas |
| `text.dfy` | `Text` | whitespace and digit classes, lower-casing, substring search, trim, split/join, literal replacement, whitespace collapsing |
| `sorting.dfy` | `Sorting` | insertion sort into non-increasing order, proved sorted, a permutation and stable |
| `matching.dfy` | `Matching` | global regular-expression deletion; patterns made of greedy repetitions and literals |
| `csv.dfy` | `Csv` | `parseCSV`: scanner, fields, records, and a writer whose output it reads back |
| `retrieval.dfy` | `Retrieval` | filter chain, chronological answer, scoring, ranking, the endpoint |
| `client.dfy` | `ClientSearch` | `cleanMessageContent`, `displayContent`, the page's search state |
| `extract.dfy` | `Extract` | `clean_text`, `parse_first_email`, truncation, sort, the document loop |

Modelling choices:

- **Whitespace.** The `\s` class, `trim()` and `strip()` are restricted to the
  six ASCII whitespace characters. `\d` covers the ASCII digits.
  Lower-casing covers ASCII and Latin-1 letters and preserves length.
- **Injected behaviour.** Date parsing (`new Date(...)`, dateutil's
  `normalize_date`) and the remote query expansion are function or sequence
  parameters.
- **Regular expressions.** Each one is modelled by a matcher that gives the
  length of the match at the front of a text. `RemoveMatches` performs the
  left-to-right global deletion.
  - The lazy `<?xml[\s\S]*?</plist>` block ends at the first closing tag.
  - In `\d+\s+EFTA_R1_\d+\s+EFTA\d+`, every repetition but the last is
    followed by a character outside its class, and a greedy final run takes
    every digit there is. So a backtracking engine can only match each run
    whole, which is what the possessive `MatchItems` does.
  - The pattern `=\d{2,3}` takes a third digit when there is one.
- **The chronological branch.** The source comment says its records are
  "sorted by date", but the code returns them in knowledge-base order, and
  `Retrieval.ChronologicalAnswer` does the same.
- **Unicode surrogates.** Strings are sequences of Dafny `char`. The
  source's UTF-16 code units do not appear in the model. Every length
  comparison therefore counts a character outside the Basic Multilingual
  Plane once where JavaScript counts it twice: a query of one such character
  is semantic in the endpoint (`trim().length` is 2, not below 2) but
  chronological in the model, and the three-character word cutoff of the
  scoring shifts the same way.
- **The reader and the writer disagree on columns.**
  - The reader `parseCSV` needs seven columns per line: Path, FileName, From,
    To, Sent, Subject, Content.
  - The extraction script writes six (File, From, To, Sent, Subject,
    Content), every field quoted, each row ended by `\r\n`.
    `Extract.WrittenRowNotRead` proves that such a line, with the `\r` the
    reader's split at `\n` leaves on it and whatever spaces its columns
    carry, reads back as its six columns trimmed and yields no record.
  - The knowledge base the endpoint embeds is therefore produced some other
    way. That producer is not part of this model, so this is recorded as an
    observation, not as a defect.
- **Doubled quotes.** `parseCSV` does not unescape doubled quotes: each `"`
  flips the flag and is dropped (`Csv.DoubledQuoteDropped`). Section 2 of
  RFC 4180 makes `""` inside a quoted field stand for one quote. So the
  writer/reader round trip `Csv.ParseSerialize` is stated for fields without
  quotes.

## Model

| member | source | states |
|---|---|---|
| Csv.ScanAppend | app/api/search/route.ts:29-39 | the character loop is a left fold: scanning a line in two pieces is scanning the second from the state the first leaves |
| Csv.ScanCounts | app/api/search/route.ts:29-39 | after any prefix the quote flag is set exactly when an odd number of quotes was seen, and the closed fields number the commas met outside quotes |
| Csv.FieldCount | app/api/search/route.ts:29-40 | a line has one more field than it has commas outside quoted spans |
| Csv.ScanQuotedText | app/api/search/route.ts:31-38 | inside an open quote, quote-free text (commas included) goes into the current field unchanged |
| Csv.ScanPlainText | app/api/search/route.ts:31-38 | outside quotes, text without quotes or commas goes into the current field unchanged |
| Csv.ScanDropsQuotes | app/api/search/route.ts:31-32 | no field under construction or closed ever holds a double quote |
| Csv.ScanTrims | app/api/search/route.ts:33-35 | every field closed at a comma is trimmed |
| Csv.FieldsClean | app/api/search/route.ts:29-40 | every field of a line, the last included, is trimmed and quote-free |
| Csv.DoubledQuoteDropped | app/api/search/route.ts:31-32 | a doubled quote anywhere in a line vanishes without trace: the line splits as if it were absent |
| Csv.SplitEncodeLine | app/api/search/route.ts:29-40 | a line written from trimmed, quote-free, single-line fields (each quoted, or comma-free) splits back into exactly those fields |
| Csv.ParseRecord | app/api/search/route.ts:42-52 | a line yields a record exactly when it has at least seven fields; the first seven become Path … Content in order, further ones are ignored |
| Csv.SplitFields | app/api/search/route.ts:29-40 | every line yields at least one field, the one closed at the end of the line |
| Csv.SplitQuotedLine | app/api/search/route.ts:29-40 | a line written with every field quoted and no quote inside a field reads back as the written fields, each trimmed |
| Csv.ParseLines | app/api/search/route.ts:23-53 | at most one record per data line |
| Csv.ParseLinesExact | app/api/search/route.ts:23-53 | the records are, in line order, the records of exactly the data lines with at least seven fields: the k-th record comes from the k-th such line |
| Csv.ParseCsvExact | app/api/search/route.ts:18-53 | the blob's records come, in order, from the lines after the first that have seven or more fields; the header line never yields one, and a single-line blob yields none |
| Csv.ParseCsv | app/api/search/route.ts:18-55 | every record has all seven columns trimmed and free of double quotes |
| Csv.ParseLinesClean | app/api/search/route.ts:23-53 | every record parsed from any lines is clean |
| Csv.SingleLineEmpty | app/api/search/route.ts:19-20 | a blob whose trimmed text is a single line (the header alone) yields no record |
| Csv.ParseSerialize | app/api/search/route.ts:18-55 | a header line followed by lines written from records with every field quoted reads back as those records, in order; the header never yields one |
| Csv.ParseBody | app/api/search/route.ts:23-53 | the written data lines parse to the records they came from, in order |
| Csv.SplitLine | app/api/search/route.ts:28-40 | the imperative character loop computes the same fields as the scanner, one more than the commas outside quotes |
| Retrieval.SenderFilter | app/api/search/route.ts:100-105 | keeps a sub-multiset of the records; an absent, empty or `all` sender keeps them all |
| Retrieval.SenderStep | app/api/search/route.ts:100-105 | the sender filter keeps, in order, exactly the records whose lower-cased From contains the lower-cased sender (all of them when inactive) |
| Retrieval.StartFilter | app/api/search/route.ts:107-110 | keeps a sub-multiset; without a start date it keeps everything |
| Retrieval.StartStep | app/api/search/route.ts:107-110 | with a start date, exactly the records whose Sent parses to a time not before it, in order; an unparseable bound or Sent excludes the record |
| Retrieval.EndFilter | app/api/search/route.ts:112-115 | keeps a sub-multiset; without an end date it keeps everything |
| Retrieval.EndStep | app/api/search/route.ts:112-115 | with an end date, exactly the records whose Sent parses to a time not after it, in order |
| Retrieval.ApplyFilters | app/api/search/route.ts:100-115 | the chain keeps a sub-multiset of the records |
| Retrieval.FiltersSpec | app/api/search/route.ts:100-115 | the three filters in sequence keep, in input order, exactly the records all active filters admit |
| Retrieval.ChronologicalAnswer | app/api/search/route.ts:117-123 | the first min(50, n) filtered records in their order, each with score 1 |
| Retrieval.SearchTerms | app/api/search/route.ts:145-151 | the terms begin with the lower-cased query, followed by every expanded term lower-cased |
| Retrieval.WordPoints | app/api/search/route.ts:173-180 | a word earns at most 9 points, and earns some exactly when it has at least three characters and occurs in a field |
| Retrieval.WordsPointsPositive | app/api/search/route.ts:173-180 | a term's words earn points exactly when one of them hits a field |
| Retrieval.WordsOfTerm | app/api/search/route.ts:173 | a term splits into at least one word, no word holds whitespace, and a term without whitespace is its own single word |
| Retrieval.TermPoints | app/api/search/route.ts:166-181 | a term earns at most 10 for the phrase plus 9 per word |
| Retrieval.ScoreAppend | app/api/search/route.ts:157-184 | each term is scored on its own and the points add up: the score for two runs of terms is the sum of their scores |
| Retrieval.ScorePositive | app/api/search/route.ts:157-184 | a record scores above zero exactly when some term occurs in its joined text or has a word of three or more characters in one of its fields |
| Retrieval.QueryPhraseBonus | app/api/search/route.ts:166-170 | a record whose joined text contains the lower-cased query scores at least 10 |
| Retrieval.ScoreAll | app/api/search/route.ts:157-184 | one scored entry per record, in order, carrying that record |
| Retrieval.ScoreGeqTotal | app/api/search/route.ts:189 | the comparator `b.score - a.score` orders entries by a total preorder |
| Retrieval.Rank | app/api/search/route.ts:187-190 | at most 30 entries, all with a positive score, in non-increasing score order, drawn from the scored entries |
| Retrieval.PositivesSorted | app/api/search/route.ts:187-190 | sorting and cutting positive entries keeps them positive and drawn from the input |
| Retrieval.RankCount | app/api/search/route.ts:187-190 | the number of results is min(30, number of positive entries) |
| Retrieval.RankStable | app/api/search/route.ts:187-190 | among results with equal scores the input order is kept: they are a prefix of the equally scored positive entries in input order |
| Retrieval.RankTop | app/api/search/route.ts:187-190 | every positive entry left out scores no more than any result |
| Retrieval.Search | app/api/search/route.ts:97-196 | chronological mode exactly for a query shorter than two characters after trimming; otherwise the semantic answer carries the terms and at most 30 positive results in non-increasing score order |
| Retrieval.SearchResultsScored | app/api/search/route.ts:157-190 | every semantic result is a record that passed the filters, with the score its text earns |
| Sorting.SortDescSorted | app/api/search/route.ts:189 | the sort leaves every element ranked no lower than each later one |
| Sorting.SortStable | app/api/search/route.ts:189 | equally ranked elements leave the sort in the order they entered it |
| Sorting.InsertStable | app/api/search/route.ts:189 | inserting into a sorted sequence appends the new element to the group it ties with |
| Matching.RemoveMatches | app/page.tsx:29-32 | global deletion never lengthens the text |
| Matching.NoMatchUnchanged | app/page.tsx:29-32 | text in which no match starts is left as it is |
| Matching.RemoveOne | app/page.tsx:29-32 | a match preceded by match-free text is deleted, the text before it kept, and scanning resumes after it |
| Matching.MatchItems | app/page.tsx:32 | a pattern match fits in the text and is non-empty when the pattern begins with a repetition |
| Matching.ItemsComplete | app/page.tsx:32 | text spelling the pattern part by part, each run ended by a character outside its class, is matched, and the match ends where the parts end |
| Matching.ItemsSound | app/page.tsx:32 | every match is the concatenation of parts spelling the pattern, each run maximal |
| ClientSearch.XmlBlockAt | app/page.tsx:29 | a match starts with `<?xml` and ends just after the first `</plist>` following the opening, and fits in the text; there is no match exactly when the text does not start with `<?xml` or no `</plist>` follows it |
| ClientSearch.XmlBlockMatched | app/page.tsx:29 | `<?xml`, then text without the closing tag, then `</plist>` is matched up to and including that first closing tag |
| ClientSearch.XmlRemoved | app/page.tsx:29 | such a block is deleted and the text around it kept |
| ClientSearch.EftaAt | app/page.tsx:32 | a metadata match is non-empty and fits in the text |
| ClientSearch.EftaRemoved | app/page.tsx:32 | a run spelling digits, whitespace, `EFTA_R1_`, digits, whitespace, `EFTA`, digits is deleted and the text around it kept |
| ClientSearch.CleanMessageContent | app/page.tsx:25-38 | the empty body gives the empty text; any result has no leading, trailing or doubled whitespace and no whitespace other than the space |
| ClientSearch.XmlBlockDeleted | app/page.tsx:29 | an XML block between a text and a space and a space and a text, neither holding `<`, is deleted and both spaces stay |
| ClientSearch.EftaRunDeleted | app/page.tsx:32 | a spelled metadata run after a text and a space, with no run starting before it or in the text after it, is deleted and both spaces stay |
| ClientSearch.CleanLeavesGap | app/page.tsx:34-37 | when the deletions leave two non-empty normalised texts with two spaces between them, the cleaned body is the two texts joined by one space |
| ClientSearch.CleanRemovesXml | app/page.tsx:25-38 | an XML block, ending at its first closing tag, between two non-empty normalised texts without `<` is cleaned away leaving the two texts joined by one space |
| ClientSearch.CleanRemovesEfta | app/page.tsx:25-38 | a spelled metadata run between two non-empty normalised texts without `<`, with no run starting before it or after it, is cleaned away leaving the two texts joined by one space |
| ClientSearch.CleanFixed | app/page.tsx:25-38 | text already normalised, without XML blocks or metadata runs, comes out unchanged |
| ClientSearch.CleanKeepsVisible | app/page.tsx:25-38 | when nothing matches, cleaning keeps every non-whitespace character, in order |
| ClientSearch.DisplayContent | app/page.tsx:57 | the cleaned copy when it is non-empty; otherwise `cleanMessageContent` of the body, hence normalised |
| ClientSearch.DisplayFallback | app/page.tsx:57 | without a cleaned copy, a body with no XML block or metadata run is shown with every visible character in order, and a normalised body exactly as it is |
| ClientSearch.Load | app/page.tsx:54-58 | one loaded entry per message, in order, each with its display text |
| ClientSearch.SetQuery | app/page.tsx:201 | typing changes the query and nothing else |
| ClientSearch.HandleSearch | app/page.tsx:65-77 | a blank or whitespace-only query leaves the whole view unchanged; otherwise the query is kept and hasSearched becomes true |
| ClientSearch.SearchResultsExact | app/page.tsx:69-76 | the results are loaded messages matching the lower-cased query in the display text, From or Subject, and every such message is among them |
| ClientSearch.SearchInOrder | app/page.tsx:69-76 | results keep the loaded order and multiplicity: one message is a result exactly when it matches, and the results for two runs of messages are those of the first followed by those of the second |
| ClientSearch.Clear | app/page.tsx:79-83 | whatever the view, the query is empty, the results empty and hasSearched false |
| ClientSearch.ActionsKeepConsistent | app/page.tsx:65-83 | every action keeps the results drawn from the loaded messages, and empty until a search has been made |
| ClientSearch.SearchIdempotent | app/page.tsx:65-77 | searching again for the same query changes nothing |
| ClientSearch.SearchForgetsResults | app/page.tsx:69-76 | the outcome of a search depends only on the query and the messages, not on earlier results |
| Extract.EncodedAt | scripts/pdf_to_csv.py:18 | a match is an equals sign and two digits, three or four characters long; an equals sign and two digits always match, taking a third digit exactly when one follows |
| Extract.EncodedRemoved | scripts/pdf_to_csv.py:18 | an equals sign with two or three digits and no further digit, after text without a match, is deleted and the text around it kept |
| Extract.CrLfStepIsNoOp | scripts/pdf_to_csv.py:20-21 | after whitespace has been collapsed, replacing `\r\n` never changes anything |
| Extract.CleanText | scripts/pdf_to_csv.py:15-22 | the result is stripped, has no doubled whitespace, no whitespace other than the space, and no line break |
| Extract.BreakReplaced | scripts/pdf_to_csv.py:17 | a `=br>` between texts without `=` becomes a line break |
| Extract.NoEquals | scripts/pdf_to_csv.py:18-19 | text without `=` survives the encoded-character and `=8E` deletions unchanged |
| Extract.BreakCollapsed | scripts/pdf_to_csv.py:20-22 | a line break between two non-empty normalised texts collapses to one space that stripping keeps |
| Extract.CleanTextBreak | scripts/pdf_to_csv.py:15-22 | a `=br>` between two non-empty normalised texts without `=` ends as exactly one space |
| Extract.DigitsNotBreak | scripts/pdf_to_csv.py:17 | text whose only `=` is followed by a digit has no soft line break, so the first replacement leaves it unchanged |
| Extract.CleanTextEncoded | scripts/pdf_to_csv.py:15-22 | an `=` with two or three digits, the third only when no further digit follows, between two normalised texts without `=` is deleted and the texts are joined directly |
| Extract.CleanTextFixed | scripts/pdf_to_csv.py:15-22 | normalised text without `=br>`, `=8E` or `=` and two digits comes out unchanged |
| Extract.HeaderValue | scripts/pdf_to_csv.py:50 | every header value is normalised text |
| Extract.AfterKey | scripts/pdf_to_csv.py:60 | on a line starting case-insensitively with a key ending in its only colon, the text after the first colon is the text after the key |
| Extract.SentValue | scripts/pdf_to_csv.py:60-62 | Sent is the normalised date when normalisation gives a non-empty one, the cleaned raw text otherwise, and never empty when the raw text is not |
| Extract.ScanLine | scripts/pdf_to_csv.py:43-81 | a blank line changes nothing; a header with a value keeps it; content only grows, by one space and the cleaned line, and only once From, To and Sent are known; a non-blank line that fills no header stops the scan exactly when it holds the reply marker (`ReplyMarker`, sender the princess) or the banner or disclaimer (`DisclaimerMarker`, sender Epstein); once From, To and Sent are known every other such line appends one space and the cleaned line; before that only header lines change anything |
| Extract.ScanLines | scripts/pdf_to_csv.py:43-81 | over the whole scan the first value of each header is kept and content only grows |
| Extract.FromAfterKey | scripts/pdf_to_csv.py:49-51 | a `from:` line, in any case, fills an empty From from the text after the key |
| Extract.ToAfterKey | scripts/pdf_to_csv.py:54-56 | a `to:` line, in any case, fills an empty To from the text after the key |
| Extract.FirstHeaderFills | scripts/pdf_to_csv.py:36-68 | the first header line of each kind the scan reaches before a stop, with a non-empty value, fills that header for good, whatever lines follow |
| Extract.SentAfterKey | scripts/pdf_to_csv.py:59-63 | a `sent:` or `date:` line, in any case, fills an empty Sent from the text after the key |
| Extract.SubjectAfterKey | scripts/pdf_to_csv.py:66-68 | a `subject:` line, in any case, fills an empty Subject from the text after the key |
| Extract.KeysApart | scripts/pdf_to_csv.py:49-66 | a line starting with the Sent, Date or Subject key starts with none of the keys the scan looks for before it |
| Extract.ContentNeedsHeaders | scripts/pdf_to_csv.py:79-81 | if a scan added content, From, To and Sent are all known at its end |
| Extract.ScanAppend | scripts/pdf_to_csv.py:71-76 | scanning two blocks of lines is scanning the first and, unless a marker stopped it, the second: lines after a stop contribute nothing |
| Extract.ParseFirstEmail | scripts/pdf_to_csv.py:36-86 | an e-mail is returned exactly when the scan found From, To and Sent, and it is what the scan gathered |
| Extract.TruncateDisclaimer | scripts/pdf_to_csv.py:101-105 | the result is a prefix of the content: everything before the first case-insensitive occurrence of the disclaimer, or all of it when there is none |
| Extract.TruncateIdempotent | scripts/pdf_to_csv.py:101-105 | truncated content holds no disclaimer, so truncating again changes nothing |
| Extract.Extracted | scripts/pdf_to_csv.py:95-107 | a document contributes one row exactly when an e-mail was found in it: its file and that e-mail, with Content cut at the disclaimer |
| Extract.Collect | scripts/pdf_to_csv.py:91-107 | at most one row per document, each with From, To and Sent |
| Extract.CollectAppend | scripts/pdf_to_csv.py:91-107 | documents are read in order: a single document gives its own row, and two runs of documents give the first's rows followed by the second's |
| Extract.LexTotal | scripts/pdf_to_csv.py:110 | any two Sent strings are comparable |
| Extract.LexTrans | scripts/pdf_to_csv.py:110 | string comparison is transitive |
| Extract.LexAntisym | scripts/pdf_to_csv.py:110 | strings each no greater than the other are equal |
| Extract.SentOrder | scripts/pdf_to_csv.py:110 | ordering by Sent is a total preorder whose ties are exactly equal Sent strings |
| Extract.Script | scripts/pdf_to_csv.py:110 | the rows are every e-mail found, complete, in non-increasing Sent order |
| Extract.ScriptStable | scripts/pdf_to_csv.py:110 | e-mails with the same Sent keep the order their documents were read in |
| Extract.LoopAsWritten | scripts/pdf_to_csv.py:91-110 | the sorted list exists once the loop body has run, and not before |
| Extract.ScriptAsWritten | scripts/pdf_to_csv.py:91-117 | the rows the script as written reaches line 117 with are unbound exactly when there are no documents |
| Extract.NoDocumentsUnbound | scripts/pdf_to_csv.py:110 | with no documents the sorted list is never assigned |
| Extract.LoopAgrees | scripts/pdf_to_csv.py:91-110 | with at least one document the loop leaves every collected e-mail sorted |
| Extract.ScriptAgrees | scripts/pdf_to_csv.py:91-117 | with at least one document the script as written writes exactly the corrected rows |
| Extract.RowFields | scripts/pdf_to_csv.py:115 | six columns, File first and Content last |
| Extract.WrittenRowNotRead | scripts/pdf_to_csv.py:114-118 | a row whose columns hold no quote or line feed is written as one line; with or without the `\r` of the writer's `\r\n` terminator it reads back under the endpoint's reader as its six columns trimmed, and the terminated line yields no record |

## Left out

- The Gemini query expansion (`app/api/search/route.ts:126-154`) is a remote model call. Its expanded terms are a parameter, and the JSON parsing of its reply is not modelled. `getEmbedding`, the embedding cache and the chat handler are also remote calls.
- `cosineSimilarity` is floating-point arithmetic that the endpoint never calls.
- HTTP request and response handling, API-key choice and error responses are I/O.
- `new Date(...)` and dateutil's `normalize_date` are parameters (`string -> Option<int>`, `string -> Option<string>`). No calendar rules are modelled.
- Fetching and Papaparse loading, and all rendering in `app/page.tsx`, are I/O and presentation.
- pdfplumber text extraction, globbing the PDF directory, the progress prints and writing the CSV file are I/O. `scripts/csv_to_md.py` is not part of this model.
- Unicode whitespace and Unicode digits are not modelled. Lower-casing covers only ASCII and Latin-1 letters: letters elsewhere (such as Ł, Greek or Cyrillic capitals) stay as they are, although `toLowerCase()` and `lower()` would map them, and case mappings that change a string's length are not modelled either; see the modelling choices above.
- Characters outside the Basic Multilingual Plane count once here, where JavaScript counts two UTF-16 units. A query made of one such character therefore takes the chronological branch of `app/api/search/route.ts:117` in the model, but the semantic branch in the endpoint. The three-character word cutoff at line 175 shifts in the same way.
- Retrieval.Words: JavaScript `split(/\s+/)` is modelled as a split at every whitespace character. This only adds empty words, and an empty word earns nothing.
- Extract.ParseFirstEmail: `splitlines` is modelled as a split at every line-break character it recognises. `\r\n` and a trailing break therefore give extra blank lines, which the scan skips.
- Csv.ParseRecord: the `|| ''` defaults at lines 44-50 are identities on strings and are not written out.
- ClientSearch.Matches: a column missing from a short row is modelled as `""`, not as `undefined`. Papaparse with `header: true` (`app/page.tsx:51-53`) leaves the keys of a short row undefined, which is why lines 71-73 use `?.`. The search term is non-empty after the blank-query check at line 67, so `undefined?.toLowerCase().includes(term)` and `"".includes(term)` are both false, and the match is the same.
- Extract.CleanText: not idempotent. Deleting `=8E` can join an `=` with two following digits into a new encoded character, which a second pass would delete; no property claims otherwise.

## Findings

| source | as written | input that shows it | evidently intended | confidence | as-written member | corrected member |
|---|---|---|---|---|---|---|
| scripts/pdf_to_csv.py:110 | `sorted_emails` is assigned inside the document loop, so it is bound only if the loop body runs at least once | a PDF directory with no `*.pdf` file: line 117 reads an unbound name (NameError) and no CSV rows are written | sort once after the loop, so an empty directory writes a CSV with only the header | high that the name is unbound for an empty directory; not executed | Extract.NoDocumentsUnbound | Extract.Script |
