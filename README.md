# Rag-Over-Large-PDF: the reference and prompt logic, in Dafny

Rag-Over-Large-PDF answers questions about long regulatory documents (tax law as
XML, HTML pages, PDFs). It splits a document into chunks, tags each chunk with the
heading or section label it falls under, indexes the chunks in a vector store, and
sends the best matches, numbered and referenced, to a chat model. Between those
library calls sits a small amount of deterministic code. This project models that
code and proves what it does:

- **XML flattener** (`XmlFlatten`): the pre-order walk of `process_xml_file` over an
  already parsed element tree. It keeps the ten recognised tags and strips their text.
  Each `Label` is stored as a reference key that maps to itself. Every other
  recognised element emits `path + text`, and the fragments are joined with `"\n"`.
  The spec functions `Walk`/`WalkAll` describe the walk. The class
  `Flattener` holds the two collections the Python closure updates in place, and its
  recursive method `ProcessElement` is proved against `Walk`.
- **Heading reference table** (`HtmlHeadings`): the dict comprehension of
  `process_html_file` over the h1–h6 elements. A Python dict is modelled as an
  insertion-ordered association list (`RefTable`), where the last write wins and the
  first insertion keeps its place.
- **Reference aligner** (`Aligner`): the loop of `create_vector_store`, with one
  cursor carried across chunks. In each chunk the first key in table order that occurs
  moves the cursor. A chunk with no key keeps it. The reference is attached only while
  the cursor is truthy. The imperative method `CreateDocuments` is proved against the
  spec function `Aligned`.
- **Section-number extractor** (`SectionNumbers`): `re.findall(r'section (\d+(\.\d+)*)',
  text.lower())` written out as a scanner. It is proved sound and complete against an
  independent description of a match.
- **Prompt assembly** (`Prompt`): the `+=` loop of `openai_generate_answer` in both of
  its layouts, and the `'No reference available'` fallback.
- **FastAPI back end** (`Backend`): the HTTP 500 error of each stage, the guard on an
  uninitialised store, and the `/query` response.

Python string behaviour is in `Strings`: `strip()` with Python's whitespace set,
`rstrip('.')`, `in`, `"\n".join`, `lower()` and `f"{i}"`.

query-using-xml.py:59-63 hands a `Label`'s prefix only to the **children** of that
`Label`, so the text beside a `Label` gets no prefix. `XmlFlatten.LabelPrefixSkipsSiblings`
proves that the sibling text is stored without the prefix, and
`XmlFlatten.NestedLabelPaths` shows that children do get it.

## Model

| member | source | states |
|---|---|---|
| Strings.Strip | query-using-xml.py:48 | `strip()` never leaves whitespace at either end and never lengthens the string |
| Strings.StripSpec | query-using-xml.py:48-49 | the stripped text is a contiguous part of the input, and it is empty exactly when the input is all whitespace (the `if text:` test) |
| Strings.RStripDotsSpec | query-using-xml.py:51-52 | `rstrip('.')` keeps a prefix of the string and removes only trailing full stops, all of them |
| Strings.RStripDots | query-using-xml.py:51-52 | `rstrip('.')` never lengthens the string and leaves no trailing full stop |
| Strings.Join | query-using-xml.py:65 | `"\n".join` opens with the first fragment |
| Strings.JoinLength | query-using-xml.py:65 | a join of no fragments is `""`; otherwise its length is the fragments' lengths plus one separator between each two neighbours |
| Strings.JoinPlacement | query-using-xml.py:65 | fragment `k` starts at the sum of the earlier fragments' lengths plus one separator each, and every fragment but the last is followed by exactly one separator; with `JoinLength` nothing else is in the result |
| Strings.JoinedPieceAt | query-using-xml.py:65 | the same placement for a one-character separator, stated as the predicate `PieceAt` |
| Strings.JoinEndsWithLast | query-using-xml.py:65 | a join closes with its last fragment |
| Strings.Lower | query-improved.py:113 | `lower()` keeps the length and lower-cases each character on its own |
| Strings.Contains | query-using-html.py:77 | `key in chunk` holds exactly when the key occurs at some position of the chunk |
| Strings.LowerIdempotent | query-improved.py:113 | lower-casing an already lower-cased text changes nothing |
| Strings.JoinEmptyIff | query-using-xml.py:65 | `"\n".join` of non-empty fragments is empty exactly when there are none |
| Strings.NatToString | query-using-html.py:137 | `f"{i}"`: a non-empty string of decimal digits without a leading zero |
| Strings.NatToStringRoundTrip | query-using-html.py:137 | the decimal numeral written for an excerpt number reads back as that number |
| Strings.NatToStringInjective | query-using-html.py:137 | different excerpt numbers are written as different numerals |
| RefTable.Put | query-using-xml.py:52 | `d[k] = v`: afterwards `k` maps to `v` and every other key is unchanged; an existing key keeps its position, a new one is appended; keys stay distinct |
| XmlFlatten.TagOf | query-using-xml.py:47 | a tag name is recognised exactly when it is one of the ten listed names |
| XmlFlatten.Walk | query-using-xml.py:45-63 | `process_element(e, path)`, `None` where it raises; pre-order: the element's own fragment and key come before anything its children add |
| XmlFlatten.WalkAll | query-using-xml.py:59-63 | the loop over the children gets through exactly when every child's walk does |
| XmlFlatten.Flattened | query-using-xml.py:32-75 | a parse error yields `("", {})`, and any other result comes from a walk that did not raise |
| XmlFlatten.WalkFailsIff | query-using-xml.py:59-63 | the walk raises exactly when the tree holds a `Label` with no text that has children (`path + None`) |
| XmlFlatten.WalkTexts | query-using-xml.py:48-56 | every emitted fragment is non-empty, and some fragment is emitted exactly when some recognised non-`Label` element has non-blank text |
| XmlFlatten.WalkAllFailsIff | query-using-xml.py:59-63 | walking a list of children raises exactly when one of them raises |
| XmlFlatten.WalkAllTexts | query-using-xml.py:48-63 | the children's fragments are all non-empty, and there is one exactly when some child's subtree has a recognised non-`Label` element with non-blank text |
| XmlFlatten.UnrecognisedElement | query-using-xml.py:47-63 | an element with an unlisted tag adds nothing itself, and its children are walked with the same path |
| XmlFlatten.BlankElement | query-using-xml.py:48-49 | a non-`Label` element with absent or whitespace-only text adds nothing itself |
| XmlFlatten.LabelElement | query-using-xml.py:48-61 | a `Label` adds no text; with non-blank text it adds exactly one key, `path + stripped text` without trailing dots, and with blank text none; either way its children get the path extended by the raw text and `.` |
| XmlFlatten.ContentElement | query-using-xml.py:54-63 | a recognised non-`Label` element with text adds exactly `path + stripped text`, ahead of its children's fragments, which get the same path |
| XmlFlatten.PutLabelsFinds | query-using-xml.py:52 | every stored label key looks up to itself, and other keys are left alone |
| XmlFlatten.FlattenedTextIff | query-using-xml.py:45-69 | the flattened text is non-empty exactly when the walk does not raise and some element contributes text |
| XmlFlatten.FlattenedTextLength | query-using-xml.py:45-65 | when the walk succeeds, the text is `""` for no fragments, and otherwise exactly as long as the walk's fragments with one `"\n"` between each two neighbours |
| XmlFlatten.FlattenedTextPlacement | query-using-xml.py:45-65 | every fragment of the walk appears in the text in pre-order, at the offset of the earlier fragments and their `"\n"`s, and is followed by `"\n"` unless it is the last |
| XmlFlatten.FailureYieldsNothing | query-using-xml.py:70-75 | a tree whose walk raises yields `("", {})` |
| XmlFlatten.FlattenedTableIsIdentity | query-using-xml.py:52 | the reference table has distinct keys and maps each key to itself |
| XmlFlatten.PutLabelsKeyOrder | query-using-xml.py:52 | storing label keys one by one leaves the dict's keys in first-occurrence order, checked against the separately defined `FirstOccurrences` |
| XmlFlatten.FlattenedKeyOrder | query-using-xml.py:45-56 | the keys of the reference table come in pre-order of the `Label` elements, a repeated key keeping its first place; this order breaks the aligner's ties |
| XmlFlatten.LabelPrefixSkipsSiblings | query-using-xml.py:59-63 | in `<Section><Label>n</Label><Text>x</Text></Section>` the text is stored as `x`, without the label's prefix |
| XmlFlatten.NestedLabelPaths | query-using-xml.py:50-61 | in `<Label>n<Label>m</Label><Text>x</Text></Label>` the keys are `n` and `n.m`, in that order, and the text is `n.x` |
| XmlFlatten.Flattener.constructor | query-using-xml.py:42-43 | the text list and the reference dict start empty |
| XmlFlatten.Flattener.StoreOwn | query-using-xml.py:47-57 | the element's own contribution: a recognised non-blank text element appends one prefixed fragment to the text list, a recognised non-blank label stores its dotted key, anything else leaves both collections as they were |
| XmlFlatten.Flattener.ProcessChildren | query-using-xml.py:59-63 | the loop over the children, in document order, succeeds exactly when `WalkAll` does, and leaves the text list and the dict extended by the children's fragments and keys in that order |
| XmlFlatten.Flattener.ProcessElement | query-using-xml.py:45-63 | the recursive in-place walk succeeds exactly when `Walk` does; it appends `Walk`'s fragments to the text list and stores `Walk`'s label keys, in order, into the dict |
| XmlFlatten.ProcessXmlFile | query-using-xml.py:32-75 | `process_xml_file` returns the joined text and the table of the walk, or `("", {})` on a parse error or a raising walk |
| HtmlHeadings.FindHeadings | query-using-html.py:45 | an element is kept exactly when it is on the page and its tag is one of h1–h6; no more elements than the page has |
| HtmlHeadings.FindHeadingsAppend | query-using-html.py:45 | the headings of a page split in two are those of the first part followed by those of the second, so document order and repetitions are kept |
| HtmlHeadings.ValueOf | query-using-html.py:46 | a heading's value is never empty |
| HtmlHeadings.HeadingTable | query-using-html.py:46 | the dict comprehension: no more entries than headings, and empty exactly when there are no headings |
| HtmlHeadings.ProcessHtmlPage | query-using-html.py:34-57 | the page text and the heading table of the page's h1–h6 elements in page order (distinct keys in first-appearance order, each looking up to the last heading with that text, by `HeadingTableGet`); `("", {})` when reading or parsing raises |
| HtmlHeadings.HeadingTableGet | query-using-html.py:46 | looking up a stripped heading text gives `tag + " " + text` of the **last** heading with that text, and nothing when there is none |
| HtmlHeadings.HeadingTableHasKey | query-using-html.py:46 | a key is present exactly when some heading's stripped text equals it |
| HtmlHeadings.HeadingTableDistinct | query-using-html.py:46 | one entry per distinct stripped heading text |
| HtmlHeadings.HeadingTableKeyOrder | query-using-html.py:46 | the keys appear in the order in which their texts first occur among the headings |
| HtmlHeadings.HeadingTableValuesNonEmpty | backend.py:48 | every value is non-empty, so it is truthy for the aligner |
| HtmlHeadings.HeadingTableValuesStartWithH | backend.py:47-48 | every value starts with `h`, the first letter of its tag name |
| Aligner.FirstMatch | query-using-html.py:76-79 | the chosen key is the first one in table order that occurs in the chunk; none is chosen exactly when no key occurs |
| Aligner.Step | query-using-xml.py:93-96 | after one chunk the cursor stays, or moves to the value of a key that occurs in the chunk; it stays when no key occurs |
| Aligner.CursorAfter | query-using-xml.py:88-96 | the cursor is still `None` exactly when no chunk so far contains a key |
| Aligner.Aligned | query-using-xml.py:88-101 | one record per chunk, and no record carries a falsy reference |
| Aligner.CreateDocuments | query-using-html.py:69-86 | the nested loop with its mutable cursor and `break` builds exactly the records of `Aligned` |
| Aligner.AlignedShape | query-using-xml.py:90-101 | one record per chunk, in chunk order, each with its chunk as content |
| Aligner.AlignedReference | query-using-xml.py:88-99 | record `i` carries the cursor after chunks `0..i` when that cursor is truthy, and no reference otherwise |
| Aligner.LastMatching | backend.py:71-76 | finds the last chunk that contains some key, with nothing after it containing one |
| Aligner.CursorIsLatestMatch | query-using-html.py:70-79 | carry-forward: the cursor is the value of the first key found in the latest chunk that contains any key, and `None` before any such chunk |
| Aligner.NoReferenceBeforeFirstMatch | backend.py:69-79 | records before the first chunk containing a key have no reference |
| Aligner.TruthyPersists | query-using-html.py:70-83 | with non-empty values, once the cursor is truthy it stays truthy for all later chunks |
| Aligner.ReferenceIffEarlierMatch | query-using-html.py:70-83 | with non-empty values, record `i` has a reference exactly when some chunk up to `i` contains a key |
| Aligner.CursorFromTable | query-using-html.py:76-78 | the cursor only ever holds a value of the table |
| SectionNumbers.DigitsEnd | query-improved.py:112 | `\d+` is greedy: it ends at the first position that is not a digit |
| SectionNumbers.MatchAtValid | query-improved.py:112 | the match built where `section ` and a digit occur is a match of the pattern, greedy, with its last `.digits` group |
| SectionNumbers.GroupsSpec | query-improved.py:112 | repeated `(\.\d+)` groups keep a valid number and stop only where neither a digit nor `.digit` follows; the last group's start is tracked |
| SectionNumbers.Scan | query-improved.py:113 | `findall`'s left-to-right scan: every match starts at or after the scan position and ends inside the text |
| SectionNumbers.ExtractSectionNumbers | query-improved.py:108-113 | each pair is a number that starts and ends with a digit, with a second group that is `""` or a `.digits` group ending the number |
| SectionNumbers.ScanSound | query-improved.py:113 | every reported match is a match of the pattern, and matches come left to right without overlap |
| SectionNumbers.NoMatchInside | query-improved.py:112 | the pattern cannot start again inside a match |
| SectionNumbers.ScanComplete | query-improved.py:113 | every position where the pattern matches starts a reported match |
| SectionNumbers.ExtractedPairs | query-improved.py:112-113 | the result is one pair (number, last `.digits` group or `""`) per match, in text order, covering every match in the lower-cased text |
| SectionNumbers.NoneIffNoMatch | query-improved.py:113 | the result is empty exactly when the pattern occurs nowhere |
| SectionNumbers.CaseInsensitive | query-improved.py:113 | the result does not depend on letter case |
| SectionNumbers.SubsectionExample | query-improved.py:112 | there is no word boundary: `subsection 4` yields `("4", "")` |
| SectionNumbers.TrailingDotExample | query-improved.py:112 | a `.` with no digit after it is excluded: `section 5.` yields `("5", "")` |
| SectionNumbers.GreedyExample | query-improved.py:112 | the number is greedy: `section 1.2.3` yields `("1.2.3", ".3")` |
| Prompt.DisplayedReference | query-using-html.py:111 | a record's reference is shown as is, and `No reference available` when it has none |
| Prompt.Entry | query-using-html.py:135-137 | each entry opens with `Excerpt ` and a digit |
| Prompt.Listing | query-using-html.py:135-137 | the entries are empty exactly when there are no excerpts |
| Prompt.BuildPrompt | query-using-html.py:127-146 | the header, one `+=` per excerpt numbered from 1, then the answer structure, build exactly `PromptText` |
| Prompt.EntryText | query-improved.py:81-82 | an entry reads `Excerpt i (Reference: r):` or `Excerpt i:` by layout, and ends with the excerpt text and a blank line |
| Prompt.ListingPrefix | query-using-xml.py:213-215 | the listing of the first excerpts is a prefix of the full listing |
| Prompt.EntryPosition | query-using-html.py:135-137 | excerpt `i` appears as entry `i + 1`, right after the header and the earlier entries |
| Prompt.EntriesInOrder | query-improved.py:81-82 | entries come in retrieval order |
| Prompt.QueryPosition | query-using-html.py:127-133 | the question appears right after the preamble and `Question: ` |
| Prompt.EndsWithFooter | query-improved.py:84-91 | the prompt ends with the fixed five-item answer structure |
| Prompt.EntryNumberRoundTrip | query-using-html.py:137 | the number written in entry `i` reads back as `i` |
| Prompt.EntryNumbersDistinct | query-using-xml.py:213-215 | entries of different positions are different texts |
| Backend.ProcessHtmlFile | backend.py:38-58 | a parsed page yields its text and the heading table of its h1–h6 elements in page order, with distinct keys, each looking up to the last heading with that text (`HeadingTableGet`); a failure yields HTTP 500 "Error processing HTML file" |
| Backend.CreateVectorStore | backend.py:60-87 | the store holds the aligner's records; a failure of splitting or indexing yields HTTP 500 "Error creating vector store" |
| Backend.QueryVectorstore | backend.py:89-102 | with no store: HTTP 500 "Vector store not initialized"; otherwise it fails exactly when the search raises, with HTTP 500 "Error querying vector store", and a success returns the search's results |
| Backend.GenerateAnswer | backend.py:104-142 | it succeeds exactly when the completion of the referenced prompt does, with that completion stripped; a failure yields HTTP 500 "Error generating response from OpenAI" |
| Backend.Excerpts | backend.py:170-173 | one excerpt per search result, in order, with its content and its reference or the fallback |
| Backend.HandleQuery | backend.py:160-177 | without a store `/query` never searches; it succeeds exactly when every stage does; the answer is the stripped completion and the excerpts match the results one to one; any error is a stage's HTTP error passed on unchanged: a raising search gives "Error querying vector store", and a raising completion after a good search gives "Error generating response from OpenAI" |
| Backend.DetailsDistinct | backend.py:58-142 | the five stage error details are pairwise different |
| Backend.HtmlFallbackIffNoReference | backend.py:172 | for a store built from an HTML page, an excerpt shows `No reference available` exactly when its record has no reference, since heading values start with `h` |
| Backend.HtmlReferenceIffHeadingSeen | backend.py:47-81 | for a store built from an HTML page, record `i` has a reference exactly when a chunk up to `i` contains some heading's stripped text |

## Left out

- Text splitting (`RecursiveCharacterTextSplitter`) is a library: chunks are an arbitrary input sequence.
- Parsing by ElementTree, BeautifulSoup, `html2text` and `PdfReader` is left out. The model takes the parsed tree, the `(tag name, get_text())` pairs, or the plain text as input, with a `None` for a parse or read error.
- XML tail text and attributes are left out, because the flattener never reads them. A namespaced tag such as `{uri}Label` is an unlisted name (`XmlFlatten.Tag.Other`), as in the membership test.
- XmlFlatten.Walk: Python's recursion limit is not modelled. A tree nested deeper than that limit (about 1000 levels by default) makes `process_element` raise `RecursionError`, and `process_xml_file` then returns `("", {})`; `Walk` succeeds at any depth.
- Embeddings, FAISS indexing and search, and the OpenAI chat completion are foreign services. The search and the completion are function parameters that return `None` when they raise. Indexing success is a boolean parameter.
- `refine_query` and `extract_search_terms` in query-using-xml.py are left out: they are calls to the completion service and nothing else.
- Strings.Lower: only ASCII letters are lower-cased. Python's `str.lower()` also maps non-ASCII letters; the pattern's literal and digits are ASCII, so this matters only for non-ASCII text.
- SectionNumbers.ExtractSectionNumbers: `\d` is taken as the ASCII digits `0`–`9`, while Python's `\d` also matches other Unicode decimal digits.
- The FastAPI startup handler and the global `vectorstore` lifecycle (backend.py:144-158) are framework plumbing. The store is a parameter (`None` before startup succeeded), and only the guard is modelled.
- The scripts' own error outcomes for indexing, search and generation are left out. In query-using-html.py and query-using-xml.py, `create_vector_store` returns `None`, `query_vectorstore` returns `[]` and `openai_generate_answer` returns `None`. Only backend.py's HTTP errors and the scripts' `("", {})` from the file processors are modelled.
- `format_result` is left out apart from its reference fallback (`Prompt.DisplayedReference`). Its `textwrap.fill` layout and its printing are display only.
- The CLI `main()` loops, `input`/`print` and all logging are I/O.
- rag-pdf.py, old-main.py and query.py only orchestrate the libraries above.
- The React front end, its API route and 3_files/getRelatedRegs.js are UI and network code. getRelatedRegs.js also sorts by locale-dependent collation.
- Backend.CreateVectorStore: the aligner runs before indexing can fail. In the source, splitting runs first and can raise before any record is built; either way the stage yields the same HTTP error.
